/** The parts of Python's `str` that the extractors rely on: `isspace`, `strip()` and
  * `split()` with no argument. */
module PyStr {

  /** The characters Python's `str.isspace()` accepts: Unicode category Zs, and the
    * bidirectional classes WS, B and S. */
  const WHITESPACE: set<char> := {'\U{9}', '\U{A}', '\U{B}', '\U{C}', '\U{D}', '\U{1C}', '\U{1D}', '\U{1E}', '\U{1F}', '\U{20}', '\U{85}', '\U{A0}', '\U{1680}', '\U{2000}', '\U{2001}', '\U{2002}', '\U{2003}', '\U{2004}', '\U{2005}', '\U{2006}', '\U{2007}', '\U{2008}', '\U{2009}', '\U{200A}', '\U{2028}', '\U{2029}', '\U{202F}', '\U{205F}', '\U{3000}'}

  /** `c.isspace()` */
  predicate IsSpace(c: char) {
    c in WHITESPACE
  }

  predicate AllSpace(s: string) {
    forall i :: 0 <= i < |s| ==> IsSpace(s[i])
  }

  predicate NoSpace(s: string) {
    forall i :: 0 <= i < |s| ==> !IsSpace(s[i])
  }

  /** A piece `split()` can produce: non-empty and free of whitespace. */
  predicate IsToken(s: string) {
    s != [] && NoSpace(s)
  }

  /** `s.lstrip()` */
  function TrimStart(s: string): (r: string)
    ensures |r| <= |s| && r == s[|s| - |r|..]
    ensures AllSpace(s[..|s| - |r|])
    ensures r == [] || !IsSpace(r[0])
    decreases |s|
  {
    if s != [] && IsSpace(s[0]) then TrimStart(s[1..]) else s
  }

  /** `s.rstrip()` */
  function TrimEnd(s: string): (r: string)
    ensures |r| <= |s| && r == s[..|r|]
    ensures AllSpace(s[|r|..])
    ensures r == [] || !IsSpace(r[|r| - 1])
    decreases |s|
  {
    if s != [] && IsSpace(s[|s| - 1]) then
      var r := TrimEnd(s[..|s| - 1]);
      assert s[|r|..] == s[..|s| - 1][|r|..] + [s[|s| - 1]];
      r
    else s
  }

  /** `s.strip()`: `s` without its leading and trailing whitespace. */
  function Strip(s: string): (r: string)
    ensures r == [] || (!IsSpace(r[0]) && !IsSpace(r[|r| - 1]))
  {
    TrimEnd(TrimStart(s))
  }

  /** What `strip()` removes is whitespace, and only from the two ends: the result is
    * the slice of `s` between a whitespace prefix and a whitespace suffix. */
  lemma {:induction false} StripIsInfix(s: string) returns (i: nat)
    ensures i + |Strip(s)| <= |s| && Strip(s) == s[i..i + |Strip(s)|]
    ensures AllSpace(s[..i]) && AllSpace(s[i + |Strip(s)|..])
  {
    var t := TrimStart(s);
    i := |s| - |t|;
    PaddedInfix(s, i, t, Strip(s));
  }

  /** `r` is `s` less a whitespace prefix of length `i` (giving `t`) and a whitespace
    * suffix of `t`. */
  lemma PaddedInfix(s: string, i: nat, t: string, r: string)
    requires i <= |s| && t == s[i..] && AllSpace(s[..i])
    requires |r| <= |t| && r == t[..|r|] && AllSpace(t[|r|..])
    ensures r == s[i..i + |r|] && AllSpace(s[i + |r|..])
  {
    assert t[|r|..] == s[i + |r|..];
  }

  /** Stripping a stripped string changes nothing. */
  lemma StripIdempotent(s: string)
    ensures Strip(Strip(s)) == Strip(s)
  {
    var r := Strip(s);
    if r != [] {
      assert !IsSpace(r[0]);
      assert TrimStart(r) == r;
      assert TrimEnd(r) == r;
    }
  }

  /** Length of the leading run of non-whitespace characters. */
  function WordLength(s: string): (n: nat)
    ensures n <= |s| && NoSpace(s[..n])
    ensures n == |s| || IsSpace(s[n])
    decreases |s|
  {
    if s == [] || IsSpace(s[0]) then 0 else 1 + WordLength(s[1..])
  }

  /** `s` with every whitespace character removed. */
  function Squeeze(s: string): string
    decreases |s|
  {
    if s == [] then [] else (if IsSpace(s[0]) then [] else [s[0]]) + Squeeze(s[1..])
  }

  /** The tokens concatenated. */
  function Concat(ts: seq<string>): string
    decreases |ts|
  {
    if ts == [] then [] else ts[0] + Concat(ts[1..])
  }

  /** The tokens joined with single spaces: `" ".join(ts)`. */
  function Join(ts: seq<string>): string
    decreases |ts|
  {
    if ts == [] then [] else if |ts| == 1 then ts[0] else ts[0] + " " + Join(ts[1..])
  }

  /** `s.split()`: the maximal runs of non-whitespace characters, in order. Leading
    * and trailing whitespace and runs of whitespace produce no empty pieces. */
  function Split(s: string): seq<string>
    decreases |s|
  {
    var t := TrimStart(s);
    if t == [] then []
    else
      var n := WordLength(t);
      [t[..n]] + Split(t[n..])
  }

  /** `split()` yields nothing exactly when the text is all whitespace. */
  lemma SplitBlank(s: string)
    ensures Split(s) == [] <==> AllSpace(s)
  {
    var t := TrimStart(s);
    if t == [] {
      assert s[..|s|] == s;
    } else {
      assert s[|s| - |t|] == t[0];
    }
  }

  /** Every piece of `split()` is a token: never empty, never holding whitespace. */
  lemma {:induction false} SplitTokens(s: string)
    ensures forall k :: 0 <= k < |Split(s)| ==> IsToken(Split(s)[k])
    decreases |s|
  {
    var t := TrimStart(s);
    if t == [] {
      assert Split(s) == [];
    } else {
      var n := WordLength(t);
      var w, rest := t[..n], Split(t[n..]);
      assert IsToken(w) by {
        assert !IsSpace(t[0]);
      }
      SplitTokens(t[n..]);
      assert Split(s) == [w] + rest;
      forall k | 0 <= k < |Split(s)|
        ensures IsToken(Split(s)[k])
      {
        if k > 0 {
          assert Split(s)[k] == rest[k - 1];
        }
      }
    }
  }

  lemma {:induction false} SqueezeConcat(a: string, b: string)
    ensures Squeeze(a + b) == Squeeze(a) + Squeeze(b)
    decreases |a|
  {
    if a == [] {
      assert a + b == b;
    } else {
      var head := if IsSpace(a[0]) then [] else [a[0]];
      assert (a + b)[0] == a[0];
      assert (a + b)[1..] == a[1..] + b;
      assert Squeeze(a + b) == head + Squeeze(a[1..] + b);
      SqueezeConcat(a[1..], b);
      assert Squeeze(a) == head + Squeeze(a[1..]);
    }
  }

  lemma {:induction false} SqueezeSpace(s: string)
    requires AllSpace(s)
    ensures Squeeze(s) == []
    decreases |s|
  {
    if s != [] {
      SqueezeSpace(s[1..]);
    }
  }

  lemma {:induction false} SqueezeWord(s: string)
    requires NoSpace(s)
    ensures Squeeze(s) == s
    decreases |s|
  {
    if s != [] {
      SqueezeWord(s[1..]);
    }
  }

  /** `split()` loses only whitespace: its tokens, glued together, are `s` without
    * its whitespace characters. */
  lemma {:induction false} SplitKeepsText(s: string)
    ensures Concat(Split(s)) == Squeeze(s)
    decreases |s|
  {
    var t := TrimStart(s);
    SqueezeTrimmed(s);
    if t == [] {
      assert Split(s) == [];
    } else {
      var n := WordLength(t);
      SplitKeepsText(t[n..]);
      SqueezeFirstWord(t);
      ConcatCons(t[..n], Split(t[n..]));
      assert Split(s) == [t[..n]] + Split(t[n..]);
    }
  }

  lemma SqueezeTrimmed(s: string)
    ensures Squeeze(s) == Squeeze(TrimStart(s))
  {
    var t := TrimStart(s);
    var i := |s| - |t|;
    assert s == s[..i] + t;
    SqueezeConcat(s[..i], t);
    SqueezeSpace(s[..i]);
  }

  lemma SqueezeFirstWord(t: string)
    ensures var n := WordLength(t); Squeeze(t) == t[..n] + Squeeze(t[n..])
  {
    var n := WordLength(t);
    assert t == t[..n] + t[n..];
    SqueezeConcat(t[..n], t[n..]);
    SqueezeWord(t[..n]);
  }

  lemma ConcatCons(w: string, ts: seq<string>)
    ensures Concat([w] + ts) == w + Concat(ts)
  {
    assert ([w] + ts)[1..] == ts;
  }

  lemma {:induction false} WordLengthOfToken(w: string, rest: string)
    requires IsToken(w)
    requires rest == [] || IsSpace(rest[0])
    ensures WordLength(w + rest) == |w|
    decreases |w|
  {
    if |w| > 1 {
      assert (w + rest)[1..] == w[1..] + rest;
      WordLengthOfToken(w[1..], rest);
    } else {
      assert (w + rest)[1..] == rest;
    }
  }

  /** A token followed by nothing or by whitespace is split off whole. */
  lemma SplitToken(w: string, rest: string)
    requires IsToken(w)
    requires rest == [] || IsSpace(rest[0])
    ensures Split(w + rest) == [w] + Split(rest)
  {
    var s := w + rest;
    assert s[0] == w[0];
    assert TrimStart(s) == s;
    WordLengthOfToken(w, rest);
    assert s[..|w|] == w;
    assert s[|w|..] == rest;
  }

  lemma SplitSkipsSpace(c: char, x: string)
    requires IsSpace(c)
    ensures Split([c] + x) == Split(x)
  {
    assert ([c] + x)[1..] == x;
    assert TrimStart([c] + x) == TrimStart(x);
  }

  /** Joining tokens with spaces and splitting again gives the tokens back. */
  lemma {:induction false} SplitJoin(ts: seq<string>)
    requires forall k :: 0 <= k < |ts| ==> IsToken(ts[k])
    ensures Split(Join(ts)) == ts
    decreases |ts|
  {
    if ts == [] {
      SplitEmpty();
    } else if |ts| == 1 {
      SplitJoinOne(ts[0]);
      assert ts == [ts[0]];
    } else {
      assert [ts[0]] + ts[1..] == ts;
      SplitJoin(ts[1..]);
      SplitJoinStep(ts[0], ts[1..]);
    }
  }

  lemma SplitEmpty()
    ensures Split([]) == []
  {
    assert TrimStart([]) == [];
  }

  lemma SplitJoinOne(w: string)
    requires IsToken(w)
    ensures Split(Join([w])) == [w]
  {
    assert Join([w]) == w + [];
    SplitToken(w, []);
    SplitEmpty();
    assert [w] + [] == [w];
  }

  lemma SplitJoinStep(w: string, ts: seq<string>)
    requires IsToken(w) && ts != []
    ensures Split(Join([w] + ts)) == [w] + Split(Join(ts))
  {
    var tail := Join(ts);
    var rest := [' '] + tail;
    assert ([w] + ts)[1..] == ts;
    assert Join([w] + ts) == w + rest;
    SplitToken(w, rest);
    SplitSkipsSpace(' ', tail);
  }
}
