/** The three relations the loaders fill and the statistics read, with the
    key and foreign-key constraints of the schema: Employee keyed by
    (email, client), Link keyed by ref with email referencing
    Employee.email, Payload keyed by an auto-increment id with ref
    referencing Link.ref. */
module Schema {

  /** Payload.type. The classifier stores "link"/"download" and the
      statistics compare with 'Link'/'Download'; the comparison is
      case-insensitive under the database's collation, so one value each. */
  datatype Kind = Link | Download

  datatype EmployeeRow = EmployeeRow(client: string, email: string, role: string)

  datatype LinkRow = LinkRow(ref: string, email: string)

  /** `date` is in seconds (see module Timestamp). */
  datatype PayloadRow = PayloadRow(id: int, kind: Kind, host: string, agent: string, date: int, ref: string)

  datatype Relations = Relations(employees: seq<EmployeeRow>, links: seq<LinkRow>, payloads: seq<PayloadRow>)

  predicate HasEmployeeKey(es: seq<EmployeeRow>, email: string, client: string)
  {
    exists e | e in es :: e.email == email && e.client == client
  }

  predicate HasEmployeeEmail(es: seq<EmployeeRow>, email: string)
  {
    exists e | e in es :: e.email == email
  }

  predicate HasLinkRef(ls: seq<LinkRow>, ref: string)
  {
    exists l | l in ls :: l.ref == ref
  }

  predicate EmployeeKeysUnique(es: seq<EmployeeRow>)
  {
    forall i, j :: 0 <= i < j < |es| ==> es[i].email != es[j].email || es[i].client != es[j].client
  }

  predicate LinkRefsUnique(ls: seq<LinkRow>)
  {
    forall i, j :: 0 <= i < j < |ls| ==> ls[i].ref != ls[j].ref
  }

  predicate LinksResolve(ls: seq<LinkRow>, es: seq<EmployeeRow>)
  {
    forall l | l in ls :: HasEmployeeEmail(es, l.email)
  }

  predicate PayloadsResolve(ps: seq<PayloadRow>, ls: seq<LinkRow>)
  {
    forall p | p in ps :: HasLinkRef(ls, p.ref)
  }

  predicate IdsIncreasing(ps: seq<PayloadRow>)
  {
    forall i, j :: 0 <= i < j < |ps| ==> ps[i].id < ps[j].id
  }

  /** Every constraint of the schema holds. */
  predicate Integrity(r: Relations)
  {
    && EmployeeKeysUnique(r.employees)
    && LinkRefsUnique(r.links)
    && LinksResolve(r.links, r.employees)
    && PayloadsResolve(r.payloads, r.links)
    && IdsIncreasing(r.payloads)
  }
}
