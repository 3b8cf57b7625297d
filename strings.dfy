/** Text primitives shared by the log classifier, the loaders and the
    statistics: Python 2 byte-string whitespace, `str.split(c)`,
    `str.split()`, `str.rstrip()`, the `in` substring test and the
    code-point order used for ORDER BY. */
module Strings {

  datatype Option<T> = None | Some(value: T)

  /** Whitespace as Python 2 `str.isspace` sees it on a byte string. */
  predicate IsSpace(c: char)
  {
    c == ' ' || c == '\t' || c == '\n' || c == '\r' || c == '\U{B}' || c == '\U{C}'
  }

  predicate NoSpace(s: string)
  {
    forall i :: 0 <= i < |s| ==> !IsSpace(s[i])
  }

  predicate Free(s: string, seps: set<char>)
  {
    forall i :: 0 <= i < |s| ==> s[i] !in seps
  }

  /** Position of the first `c` in `s`, or `|s|` when there is none. */
  function IndexOf(s: string, c: char): (i: nat)
    ensures i <= |s|
    ensures c !in s[..i]
    ensures i < |s| ==> s[i] == c
    decreases |s|
  {
    if s == [] then 0
    else if s[0] == c then 0
    else
      var i := 1 + IndexOf(s[1..], c);
      assert s[..i] == [s[0]] + s[1..][..i - 1];
      i
  }

  // ---------------------------------------------------------------------
  // Substring test: Python's `sub in s`

  predicate Contains(s: string, sub: string)
    decreases |s|
  {
    sub <= s || (s != [] && Contains(s[1..], sub))
  }

  lemma {:induction false} ContainsMiddle(a: string, sub: string, b: string)
    ensures Contains(a + sub + b, sub)
    decreases |a|
  {
    if a == [] {
      assert a + sub + b == sub + b;
    } else {
      assert (a + sub + b)[1..] == a[1..] + sub + b;
      ContainsMiddle(a[1..], sub, b);
    }
  }

  lemma {:induction false} ContainsFromPrefix(s: string, t: string, u: string)
    requires t <= s && Contains(t, u)
    ensures Contains(s, u)
    decreases |t|
  {
    if !(u <= t) {
      assert s[1..][..|t| - 1] == t[1..];
      ContainsFromPrefix(s[1..], t[1..], u);
    }
  }

  lemma {:induction false} ContainsTransitive(s: string, t: string, u: string)
    requires Contains(s, t) && Contains(t, u)
    ensures Contains(s, u)
    decreases |s|
  {
    if t <= s {
      ContainsFromPrefix(s, t, u);
    } else {
      ContainsTransitive(s[1..], t, u);
    }
  }

  // ---------------------------------------------------------------------
  // `s.split(c)` generalised to a set of separator characters

  /** Splits at every separator; n separators give n + 1 parts, as Python does. */
  function Split(s: string, seps: set<char>): (parts: seq<string>)
    ensures |parts| >= 1
    ensures forall k :: 0 <= k < |parts| ==> Free(parts[k], seps)
    decreases |s|
  {
    if s == [] then [""]
    else
      var rest := Split(s[1..], seps);
      if s[0] in seps then [""] + rest
      else [[s[0]] + rest[0]] + rest[1..]
  }

  /** `c.join(parts)` */
  function Join(parts: seq<string>, c: char): string
  {
    if parts == [] then ""
    else if |parts| == 1 then parts[0]
    else parts[0] + [c] + Join(parts[1..], c)
  }

  /** Splitting and re-joining with the one separator gives back the input. */
  lemma {:induction false} JoinSplit(s: string, c: char)
    ensures Join(Split(s, {c}), c) == s
    decreases |s|
  {
    if s != [] {
      var rest := Split(s[1..], {c});
      JoinSplit(s[1..], c);
      if s[0] == c {
        assert Split(s, {c}) == [""] + rest;
      } else {
        var parts := Split(s, {c});
        assert parts == [[s[0]] + rest[0]] + rest[1..];
        if |rest| == 1 {
          assert Join(parts, c) == [s[0]] + rest[0];
        } else {
          assert rest == [rest[0]] + rest[1..];
          assert Join(rest, c) == rest[0] + [c] + Join(rest[1..], c);
          assert Join(parts, c) == [s[0]] + rest[0] + [c] + Join(rest[1..], c);
        }
      }
    }
  }

  /** Joining separator-free parts and splitting again gives back the parts. */
  lemma {:induction false} SplitJoin(parts: seq<string>, c: char, seps: set<char>)
    requires |parts| >= 1 && c in seps
    requires forall k :: 0 <= k < |parts| ==> Free(parts[k], seps)
    ensures Split(Join(parts, c), seps) == parts
    decreases |parts|
  {
    if |parts| == 1 {
      SplitFree(parts[0], seps);
    } else {
      SplitJoin(parts[1..], c, seps);
      SplitPrefix(parts[0], Join(parts[1..], c), c, seps);
      assert Join(parts, c) == parts[0] + [c] + Join(parts[1..], c);
      assert parts == [parts[0]] + parts[1..];
    }
  }

  lemma {:induction false} SplitFree(s: string, seps: set<char>)
    requires Free(s, seps)
    ensures Split(s, seps) == [s]
    decreases |s|
  {
    if s != [] {
      SplitFree(s[1..], seps);
      assert [s[0]] + s[1..] == s;
    }
  }

  /** A split has a single part exactly when there is no separator. */
  lemma {:induction false} SplitSingle(s: string, seps: set<char>)
    ensures |Split(s, seps)| == 1 <==> Free(s, seps)
    decreases |s|
  {
    if s != [] {
      SplitSingle(s[1..], seps);
      if s[0] !in seps && Free(s[1..], seps) {
        assert Free(s, seps) by {
          forall i | 0 <= i < |s| ensures s[i] !in seps {
            if i > 0 {
              assert s[i] == s[1..][i - 1];
            }
          }
        }
      }
      if Free(s, seps) {
        assert Free(s[1..], seps) by {
          forall i | 0 <= i < |s| - 1 ensures s[1..][i] !in seps {
            assert s[1..][i] == s[i + 1];
          }
        }
      }
    }
  }

  /** Splitting `a + [c] + b` with `a` separator-free puts `a` in front of `b`'s parts. */
  lemma {:induction false} SplitPrefix(a: string, b: string, c: char, seps: set<char>)
    requires Free(a, seps) && c in seps
    ensures Split(a + [c] + b, seps) == [a] + Split(b, seps)
    decreases |a|
  {
    if a == [] {
      assert a + [c] + b == [c] + b;
      assert ([c] + b)[1..] == b;
    } else {
      var s := a + [c] + b;
      assert s[1..] == a[1..] + [c] + b;
      SplitPrefix(a[1..], b, c, seps);
      assert [a[0]] + a[1..] == a;
    }
  }

  /** Each part of a split occurs in the input. */
  lemma {:induction false} SplitPartContained(s: string, seps: set<char>, k: nat)
    requires k < |Split(s, seps)|
    ensures Contains(s, Split(s, seps)[k])
    decreases |s|
  {
    var parts := Split(s, seps);
    if s != [] {
      var rest := Split(s[1..], seps);
      if s[0] in seps {
        if k > 0 {
          SplitPartContained(s[1..], seps, k - 1);
        }
      } else if k == 0 {
        SplitHeadPrefix(s[1..], seps);
        assert parts[0] == [s[0]] + rest[0];
        assert s == [s[0]] + s[1..];
      } else {
        SplitPartContained(s[1..], seps, k);
      }
    }
  }

  lemma {:induction false} SplitHeadPrefix(s: string, seps: set<char>)
    ensures Split(s, seps)[0] <= s
    decreases |s|
  {
    if s != [] {
      SplitHeadPrefix(s[1..], seps);
    }
  }

  // ---------------------------------------------------------------------
  // `s.rstrip()` and `s.split()`

  /** Removes trailing whitespace. */
  function RStrip(s: string): (r: string)
    ensures r <= s
    ensures r == [] || !IsSpace(r[|r| - 1])
    ensures forall i :: |r| <= i < |s| ==> IsSpace(s[i])
    decreases |s|
  {
    if s != [] && IsSpace(s[|s| - 1]) then RStrip(s[..|s| - 1]) else s
  }

  /** Length of the longest whitespace-free prefix. */
  function WordLength(s: string): (n: nat)
    ensures n <= |s|
    ensures NoSpace(s[..n])
    ensures n < |s| ==> IsSpace(s[n])
    decreases |s|
  {
    if s == [] || IsSpace(s[0]) then 0 else 1 + WordLength(s[1..])
  }

  /** `s.split()`: the maximal whitespace-free runs of `s`, in order. */
  function Tokens(s: string): (ts: seq<string>)
    ensures forall k :: 0 <= k < |ts| ==> ts[k] != [] && NoSpace(ts[k])
    decreases |s|
  {
    if s == [] then []
    else if IsSpace(s[0]) then Tokens(s[1..])
    else
      var n := WordLength(s);
      [s[..n]] + Tokens(s[n..])
  }

  /** The first token of `w` followed by whitespace and anything else is `w`. */
  lemma {:induction false} FirstToken(w: string, c: char, rest: string)
    requires w != [] && NoSpace(w) && IsSpace(c)
    ensures Tokens(w + [c] + rest) != [] && Tokens(w + [c] + rest)[0] == w
  {
    var s := w + [c] + rest;
    WordLengthOf(w, c, rest);
    assert s[..|w|] == w;
  }

  lemma {:induction false} WordLengthOf(w: string, c: char, rest: string)
    requires NoSpace(w) && IsSpace(c)
    ensures WordLength(w + [c] + rest) == |w|
    decreases |w|
  {
    if w != [] {
      assert (w + [c] + rest)[1..] == w[1..] + [c] + rest;
      WordLengthOf(w[1..], c, rest);
    }
  }

  lemma {:induction false} TokensOfWord(w: string)
    requires w != [] && NoSpace(w)
    ensures Tokens(w) == [w]
  {
    assert WordLength(w) == |w| by {
      WordLengthAll(w);
    }
    assert w[..|w|] == w;
    assert w[|w|..] == [];
  }

  /** Non-empty whitespace-free words joined by a whitespace character split
      back into exactly those words. */
  lemma {:induction false} TokensJoin(ws: seq<string>, c: char)
    requires forall k :: 0 <= k < |ws| ==> ws[k] != [] && NoSpace(ws[k])
    requires IsSpace(c)
    ensures Tokens(Join(ws, c)) == ws
    decreases |ws|
  {
    if |ws| == 1 {
      TokensOfWord(ws[0]);
    } else if |ws| > 1 {
      TokensAfterWord(ws[0], c, Join(ws[1..], c));
      TokensJoin(ws[1..], c);
      assert ws == [ws[0]] + ws[1..];
    }
  }

  /** A word followed by whitespace is the first token, and the rest are the
      tokens of what follows. */
  lemma {:induction false} TokensAfterWord(w: string, c: char, rest: string)
    requires w != [] && NoSpace(w) && IsSpace(c)
    ensures Tokens(w + [c] + rest) == [w] + Tokens(rest)
  {
    var s := w + [c] + rest;
    WordLengthOf(w, c, rest);
    assert s[..|w|] == w;
    assert s[|w|..] == [c] + rest;
    assert ([c] + rest)[1..] == rest;
  }

  lemma {:induction false} WordLengthAll(w: string)
    requires NoSpace(w)
    ensures WordLength(w) == |w|
    decreases |w|
  {
    if w != [] {
      WordLengthAll(w[1..]);
    }
  }

  // ---------------------------------------------------------------------
  // Code-point lexicographic order

  predicate Less(a: string, b: string)
    decreases |a|
  {
    if a == [] then b != []
    else if b == [] then false
    else a[0] < b[0] || (a[0] == b[0] && Less(a[1..], b[1..]))
  }

  lemma {:induction false} LessIrreflexive(a: string)
    ensures !Less(a, a)
    decreases |a|
  {
    if a != [] {
      LessIrreflexive(a[1..]);
    }
  }

  lemma {:induction false} LessTransitive(a: string, b: string, c: string)
    requires Less(a, b) && Less(b, c)
    ensures Less(a, c)
    decreases |a|
  {
    if a != [] && b != [] && c != [] && a[0] == b[0] == c[0] {
      LessTransitive(a[1..], b[1..], c[1..]);
    }
  }

  /** Any two different strings are ordered one way or the other. */
  lemma {:induction false} LessTotal(a: string, b: string)
    requires a != b
    ensures Less(a, b) || Less(b, a)
    decreases |a|
  {
    if a != [] && b != [] && a[0] == b[0] {
      assert a == [a[0]] + a[1..] && b == [b[0]] + b[1..];
      LessTotal(a[1..], b[1..]);
    }
  }
}
