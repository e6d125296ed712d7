/**
 * String helpers with Python's semantics: `str.strip()` (which removes Unicode
 * whitespace at both ends) and `str.join`.
 */
module Text {

  /** The characters for which Python's `str.isspace()` holds. */
  predicate IsSpace(c: char)
  {
    c == ' ' || c == '\t' || c == '\n' || c == '\r' || c == '\U{0b}' || c == '\U{0c}'
    || ('\U{1c}' <= c <= '\U{1f}') || c == '\U{85}' || c == '\U{a0}' || c == '\U{1680}'
    || ('\U{2000}' <= c <= '\U{200a}') || c == '\U{2028}' || c == '\U{2029}'
    || c == '\U{202f}' || c == '\U{205f}' || c == '\U{3000}'
  }

  predicate AllSpace(s: string)
  {
    forall i :: 0 <= i < |s| ==> IsSpace(s[i])
  }

  /** Number of whitespace characters at the start of `s`. */
  function LeadingSpace(s: string): (k: nat)
    ensures k <= |s|
    ensures AllSpace(s[..k])
    ensures k < |s| ==> !IsSpace(s[k])
  {
    if s == [] || !IsSpace(s[0]) then 0
    else
      var k := 1 + LeadingSpace(s[1..]);
      assert s[..k] == [s[0]] + s[1..][..k - 1];
      k
  }

  /** Number of whitespace characters at the end of `s`. */
  function TrailingSpace(s: string): (k: nat)
    ensures k <= |s|
    ensures AllSpace(s[|s| - k..])
    ensures k < |s| ==> !IsSpace(s[|s| - k - 1])
  {
    if s == [] || !IsSpace(s[|s| - 1]) then 0
    else
      var t := s[..|s| - 1];
      var k := 1 + TrailingSpace(t);
      assert s[|s| - k..] == t[|t| - (k - 1)..] + [s[|s| - 1]];
      k
  }

  /** Python's `s.strip()`: `s` without its leading and trailing whitespace. */
  function Strip(s: string): (r: string)
    ensures exists i, j :: 0 <= i <= j <= |s| && r == s[i..j] && AllSpace(s[..i]) && AllSpace(s[j..])
    ensures r != [] ==> !IsSpace(r[0]) && !IsSpace(r[|r| - 1])
    ensures r == [] <==> AllSpace(s)
  {
    var i := LeadingSpace(s);
    if i == |s| then
      assert s[i..i] == [];
      []
    else
      var rest := s[i..];
      var k := TrailingSpace(rest);
      assert k < |rest| by {
        assert !IsSpace(rest[0]);
      }
      var r := s[i..|s| - k];
      assert r == rest[..|rest| - k];
      assert s[|s| - k..] == rest[|rest| - k..];
      assert !IsSpace(r[0]) && !IsSpace(r[|r| - 1]);
      assert !AllSpace(s) by { assert !IsSpace(s[i]); }
      r
  }

  /** A string with no whitespace at either end is its own strip. */
  lemma StripUntrimmed(s: string)
    requires s != [] && !IsSpace(s[0]) && !IsSpace(s[|s| - 1])
    ensures Strip(s) == s
  {
    assert LeadingSpace(s) == 0;
    assert s[0..] == s;
    assert TrailingSpace(s) == 0;
  }

  /** Concatenation of a list of strings with no separator (Python's `"".join(xs)`). */
  function Concat(xs: seq<string>): string
  {
    if xs == [] then [] else xs[0] + Concat(xs[1..])
  }

  /** A concatenation is all whitespace exactly when every piece is. */
  lemma {:induction false} AllSpaceConcat(xs: seq<string>)
    ensures AllSpace(Concat(xs)) <==> forall i :: 0 <= i < |xs| ==> AllSpace(xs[i])
  {
    if xs != [] {
      AllSpaceConcat(xs[1..]);
      var c := Concat(xs);
      assert c == xs[0] + Concat(xs[1..]);
      if AllSpace(c) {
        forall i | 0 <= i < |xs| ensures AllSpace(xs[i]) {
          if i == 0 {
            assert forall k :: 0 <= k < |xs[0]| ==> xs[0][k] == c[k];
          } else {
            assert xs[i] == xs[1..][i - 1];
            var rest := Concat(xs[1..]);
            assert forall k :: 0 <= k < |rest| ==> rest[k] == c[|xs[0]| + k];
          }
        }
      }
      if forall i :: 0 <= i < |xs| ==> AllSpace(xs[i]) {
        assert forall i :: 0 <= i < |xs| - 1 ==> xs[1..][i] == xs[i + 1];
        assert AllSpace(xs[0]);
      }
    }
  }

  /** Sum of the lengths of the strings in `xs`. */
  function TotalLength(xs: seq<string>): nat
  {
    if xs == [] then 0 else |xs[0]| + TotalLength(xs[1..])
  }

  lemma {:induction false} ConcatLength(xs: seq<string>)
    ensures |Concat(xs)| == TotalLength(xs)
  {
    if xs != [] {
      ConcatLength(xs[1..]);
    }
  }

  lemma {:induction false} ConcatAppend(xs: seq<string>, ys: seq<string>)
    ensures Concat(xs + ys) == Concat(xs) + Concat(ys)
  {
    if xs == [] {
      assert xs + ys == ys;
    } else {
      assert (xs + ys)[1..] == xs[1..] + ys;
      ConcatAppend(xs[1..], ys);
    }
  }

  /** `s.startswith(p)`. */
  predicate StartsWith(s: string, p: string)
  {
    |p| <= |s| && s[..|p|] == p
  }

  /** `s.endswith(p)`. */
  predicate EndsWith(s: string, p: string)
  {
    |p| <= |s| && s[|s| - |p|..] == p
  }

  /** Python's `sep.join(xs)`: it starts with the first piece and ends with the last. */
  function Join(sep: string, xs: seq<string>): (r: string)
    ensures xs == [] ==> r == []
    ensures xs != [] ==> StartsWith(r, xs[0]) && EndsWith(r, xs[|xs| - 1])
  {
    if xs == [] then []
    else if |xs| == 1 then xs[0]
    else
      var rest := Join(sep, xs[1..]);
      assert xs[1..][|xs| - 2] == xs[|xs| - 1];
      var r := xs[0] + sep + rest;
      assert r[..|xs[0]|] == xs[0];
      assert r[|r| - |rest|..] == rest;
      r
  }

  /**
   * `sep.join(xs)` holds every piece and |xs| - 1 separators, so its length is
   * the total length of the pieces plus that many separators.
   */
  lemma {:induction false} JoinLength(sep: string, xs: seq<string>)
    requires xs != []
    ensures |Join(sep, xs)| == TotalLength(xs) + (|xs| - 1) * |sep|
  {
    if |xs| > 1 {
      JoinLength(sep, xs[1..]);
      assert |Join(sep, xs)| == |xs[0]| + |sep| + |Join(sep, xs[1..])|;
      assert TotalLength(xs) == |xs[0]| + TotalLength(xs[1..]);
      assert (|xs| - 1) * |sep| == (|xs[1..]| - 1) * |sep| + |sep|;
    } else {
      assert TotalLength(xs) == |xs[0]| + TotalLength(xs[1..]);
    }
  }

  /**
   * With a non-empty separator, the joined string is empty exactly when there
   * is at most one piece and every piece is empty.
   */
  lemma {:induction false} JoinEmptyIff(sep: string, xs: seq<string>)
    requires sep != []
    ensures Join(sep, xs) == [] <==> |xs| <= 1 && forall i :: 0 <= i < |xs| ==> xs[i] == []
  {
    var r := Join(sep, xs);
    if |xs| > 1 {
      assert |r| == |xs[0]| + |sep| + |Join(sep, xs[1..])|;
      assert r != [];
    } else if |xs| == 1 {
      assert r == xs[0];
    }
  }

  /** Joining one more piece at the end adds one separator and that piece. */
  lemma {:induction false} JoinSnoc(sep: string, xs: seq<string>, x: string)
    requires xs != []
    ensures Join(sep, xs + [x]) == Join(sep, xs) + sep + x
  {
    var ys := xs + [x];
    if |xs| == 1 {
      assert ys[1..] == [x];
    } else {
      assert ys[1..] == xs[1..] + [x];
      calc {
        Join(sep, ys);
        xs[0] + sep + Join(sep, xs[1..] + [x]);
        { JoinSnoc(sep, xs[1..], x); }
        xs[0] + sep + (Join(sep, xs[1..]) + sep + x);
        (xs[0] + sep + Join(sep, xs[1..])) + sep + x;
        Join(sep, xs) + sep + x;
      }
    }
  }


}
