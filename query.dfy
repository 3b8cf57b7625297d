/** The part of Python 2's `urlparse` and `parse_qs` that the log
    classifier relies on: the query component of a URL, and the values a
    query string gives one key. Percent-decoding and '+'-decoding are not
    modelled (names and values are compared as written). */
module Query {
  import opened Strings

  /** `urlparse(url).query`: what follows the first '?' in the part of the
      URL before the first '#' (scheme and network location cannot hold
      either character). */
  function QueryOf(url: string): string
  {
    var u := url[..IndexOf(url, '#')];
    var i := IndexOf(u, '?');
    if i == |u| then "" else u[i + 1..]
  }

  /** The query of `path?query` followed by nothing or by a fragment is `query`. */
  lemma QueryOfBuilt(path: string, query: string, fragment: string)
    requires '?' !in path && '#' !in path && '#' !in query
    requires fragment == [] || fragment[0] == '#'
    ensures QueryOf(path + ['?'] + query + fragment) == query
  {
    var url := path + ['?'] + query + fragment;
    var h := IndexOf(url, '#');
    var n := |path| + 1 + |query|;
    assert forall j :: 0 <= j < n ==> url[j] == (path + ['?'] + query)[j];
    assert n < |url| ==> url[n] == '#';
    var u := url[..h];
    assert u == path + ['?'] + query;
    var i := IndexOf(u, '?');
    assert forall j :: 0 <= j < |path| ==> u[j] == path[j];
    assert u[|path|] == '?';
    assert u[i + 1..] == query;
  }

  lemma QueryOfContained(url: string)
    ensures Contains(url, QueryOf(url))
  {
    var u := url[..IndexOf(url, '#')];
    var i := IndexOf(u, '?');
    if i < |u| {
      assert url == url[..i + 1] + QueryOf(url) + url[|u|..];
      ContainsMiddle(url[..i + 1], QueryOf(url), url[|u|..]);
    } else {
      assert url == "" + "" + url;
      ContainsMiddle("", "", url);
    }
  }

  // ---------------------------------------------------------------------
  // parse_qs

  datatype Pair = Pair(name: string, value: string)

  const Separators: set<char> := {'&', ';'}

  /** One `name=value` field: split at the first '='; no '=' gives nothing. */
  function FieldOf(segment: string): Option<Pair>
  {
    var i := IndexOf(segment, '=');
    if i == |segment| then None else Some(Pair(segment[..i], segment[i + 1..]))
  }

  /** The fields that survive: those with an '=' and a non-blank value. */
  function Kept(segments: seq<string>): (ps: seq<Pair>)
    ensures |ps| <= |segments|
    ensures forall k :: 0 <= k < |ps| ==> ps[k].value != ""
  {
    if segments == [] then []
    else
      var rest := Kept(segments[1..]);
      match FieldOf(segments[0])
      case Some(p) => if p.value != "" then [p] + rest else rest
      case None => rest
  }

  /** `parse_qsl(query)`: the name/value pairs of a query, in order, split at
      '&' and ';', blank values dropped. */
  function Pairs(query: string): seq<Pair>
  {
    Kept(Split(query, Separators))
  }

  function ValuesOf(ps: seq<Pair>, key: string): (vs: seq<string>)
    ensures |vs| <= |ps|
  {
    if ps == [] then []
    else (if ps[0].name == key then [ps[0].value] else []) + ValuesOf(ps[1..], key)
  }

  /** `parse_qs(query)[key]` (empty when the key is absent). */
  function Values(query: string, key: string): seq<string>
  {
    ValuesOf(Pairs(query), key)
  }

  /** `key in parse_qs(query)` */
  predicate HasKey(query: string, key: string)
  {
    Values(query, key) != []
  }

  function Concat(vs: seq<string>): string
  {
    if vs == [] then "" else vs[0] + Concat(vs[1..])
  }

  /** `''.join(parse_qs(query)[key])` */
  function Joined(query: string, key: string): string
  {
    Concat(Values(query, key))
  }

  // ---------------------------------------------------------------------
  // Encoding a query and reading it back

  predicate Encodable(p: Pair)
  {
    Free(p.name, Separators + {'='}) && p.value != "" && Free(p.value, Separators)
  }

  function Segment(p: Pair): string
  {
    p.name + ['='] + p.value
  }

  function Segments(ps: seq<Pair>): (segs: seq<string>)
    ensures |segs| == |ps|
    ensures forall k :: 0 <= k < |ps| ==> segs[k] == Segment(ps[k])
  {
    if ps == [] then [] else [Segment(ps[0])] + Segments(ps[1..])
  }

  /** `name1=value1&name2=value2...` */
  function Encode(ps: seq<Pair>): string
  {
    Join(Segments(ps), '&')
  }

  /** A query written out from encodable pairs parses back to exactly those pairs. */
  lemma {:induction false} PairsEncode(ps: seq<Pair>)
    requires forall k :: 0 <= k < |ps| ==> Encodable(ps[k])
    ensures Pairs(Encode(ps)) == ps
  {
    if ps == [] {
      assert Split("", Separators) == [""];
      assert FieldOf("") == None;
    } else {
      var segs := Segments(ps);
      forall k | 0 <= k < |segs| ensures Free(segs[k], Separators) {
        assert segs[k] == ps[k].name + ['='] + ps[k].value;
      }
      SplitJoin(segs, '&', Separators);
      KeptSegments(ps);
    }
  }

  lemma {:induction false} KeptSegments(ps: seq<Pair>)
    requires forall k :: 0 <= k < |ps| ==> Encodable(ps[k])
    ensures Kept(Segments(ps)) == ps
    decreases |ps|
  {
    if ps != [] {
      var p := ps[0];
      var seg := Segment(p);
      var i := IndexOf(seg, '=');
      assert forall j :: 0 <= j < |p.name| ==> seg[j] == p.name[j];
      assert seg[|p.name|] == '=';
      assert seg[..i] == p.name && seg[i + 1..] == p.value;
      assert Segments(ps)[1..] == Segments(ps[1..]);
      KeptSegments(ps[1..]);
    }
  }

  /** So the values a key gets are exactly the values written for it, in order. */
  lemma EncodedValues(ps: seq<Pair>, key: string)
    requires forall k :: 0 <= k < |ps| ==> Encodable(ps[k])
    ensures Values(Encode(ps), key) == ValuesOf(ps, key)
  {
    PairsEncode(ps);
  }

  /** A key with a value in a query occurs in that query as text. */
  lemma HasKeyContained(query: string, key: string)
    requires HasKey(query, key)
    ensures Contains(query, key)
  {
    var segs := Split(query, Separators);
    var k := NamedSegment(segs, key);
    SplitPartContained(query, Separators, k);
    var seg := segs[k];
    var i := IndexOf(seg, '=');
    assert seg == "" + key + seg[i..];
    ContainsMiddle("", key, seg[i..]);
    ContainsTransitive(query, seg, key);
  }

  /** A key that `Kept` reports comes from the name part of some segment. */
  lemma {:induction false} NamedSegment(segs: seq<string>, key: string) returns (k: nat)
    requires ValuesOf(Kept(segs), key) != []
    ensures k < |segs| && FieldOf(segs[k]).Some? && FieldOf(segs[k]).value.name == key
    decreases |segs|
  {
    var rest := Kept(segs[1..]);
    match FieldOf(segs[0])
    case Some(p) =>
      if p.value != "" && p.name == key {
        k := 0;
      } else {
        if p.value != "" {
          assert Kept(segs) == [p] + rest;
          assert ValuesOf(Kept(segs), key) == ValuesOf(rest, key);
        }
        k := NamedSegment(segs[1..], key);
        k := k + 1;
      }
    case None =>
      k := NamedSegment(segs[1..], key);
      k := k + 1;
  }
}
