/**
 * The JavaScript string built-ins the printout encoder relies on:
 * `String.prototype.trim`, `indexOf` and `split` with a one-character
 * argument, and `repeat`. A JavaScript string is a sequence of UTF-16 code
 * units; here one `char` stands for one code unit.
 */
module JsString {

  /**
   * The ECMAScript WhiteSpace and LineTerminator code points: what `trim`
   * strips, and what `parseInt` skips before the number.
   */
  const WhiteSpaceChars: set<char> := {
    '\U{9}', '\U{A}', '\U{B}', '\U{C}', '\U{D}', '\U{20}', '\U{A0}', '\U{1680}',
    '\U{2000}', '\U{2001}', '\U{2002}', '\U{2003}', '\U{2004}', '\U{2005}', '\U{2006}',
    '\U{2007}', '\U{2008}', '\U{2009}', '\U{200A}', '\U{2028}', '\U{2029}', '\U{202F}',
    '\U{205F}', '\U{3000}', '\U{FEFF}'
  }

  predicate IsWhiteSpace(c: char) {
    c in WhiteSpaceChars
  }

  /** True when every character of `s` is white space. */
  predicate AllWhiteSpace(s: string) {
    forall k :: 0 <= k < |s| ==> IsWhiteSpace(s[k])
  }

  /** `s` without its leading white space: a suffix of `s` that is empty or starts with a non-blank. */
  function TrimStart(s: string): (r: string)
    ensures |r| <= |s| && r == s[|s| - |r|..]
    ensures r != [] ==> !IsWhiteSpace(r[0])
    decreases |s|
  {
    if s != [] && IsWhiteSpace(s[0]) then TrimStart(s[1..]) else s
  }

  /** `s` without its trailing white space: a prefix of `s` that is empty or ends with a non-blank. */
  function TrimEnd(s: string): (r: string)
    ensures |r| <= |s| && r == s[..|r|]
    ensures r != [] ==> !IsWhiteSpace(r[|r| - 1])
    decreases |s|
  {
    if s != [] && IsWhiteSpace(s[|s| - 1]) then TrimEnd(s[..|s| - 1]) else s
  }

  /** What `TrimStart` drops is white space, so it drops the longest blank prefix. */
  lemma {:induction false} TrimStartDropsWhiteSpace(s: string)
    ensures AllWhiteSpace(s[..|s| - |TrimStart(s)|])
    decreases |s|
  {
    if s != [] && IsWhiteSpace(s[0]) {
      TrimStartDropsWhiteSpace(s[1..]);
      var n := |s| - |TrimStart(s)|;
      forall k | 0 <= k < n ensures IsWhiteSpace(s[..n][k]) {
        if k > 0 {
          assert s[..n][k] == s[1..][..n - 1][k - 1];
        }
      }
    }
  }

  /** What `TrimEnd` drops is white space, so it drops the longest blank suffix. */
  lemma {:induction false} TrimEndDropsWhiteSpace(s: string)
    ensures AllWhiteSpace(s[|TrimEnd(s)|..])
    decreases |s|
  {
    if s != [] && IsWhiteSpace(s[|s| - 1]) {
      var p := s[..|s| - 1];
      TrimEndDropsWhiteSpace(p);
      var m := |TrimEnd(s)|;
      forall k | 0 <= k < |s| - m ensures IsWhiteSpace(s[m..][k]) {
        if m + k < |s| - 1 {
          assert s[m..][k] == p[m..][k];
        }
      }
    }
  }

  /** `String.prototype.trim`: `s` with the white space at both ends removed. */
  function Trim(s: string): (r: string)
    ensures |r| <= |s|
    ensures r != [] ==> !IsWhiteSpace(r[0]) && !IsWhiteSpace(r[|r| - 1])
  {
    var t := TrimStart(s);
    var r := TrimEnd(t);
    assert r != [] ==> r[0] == t[0];
    r
  }

  /** `r` is the slice of `s` at `i`, with only white space before and after it. */
  predicate BlankFramedSlice(s: string, i: nat, r: string) {
    i + |r| <= |s| && r == s[i..i + |r|] && AllWhiteSpace(s[..i]) && AllWhiteSpace(s[i + |r|..])
  }

  /** A blank-framed prefix of a suffix after blank text is a blank-framed slice. */
  lemma PrefixOfSuffix(s: string, t: string, r: string)
    requires |t| <= |s| && t == s[|s| - |t|..] && AllWhiteSpace(s[..|s| - |t|])
    requires |r| <= |t| && r == t[..|r|] && AllWhiteSpace(t[|r|..])
    ensures BlankFramedSlice(s, |s| - |t|, r)
  {
    var i := |s| - |t|;
    assert r == s[i..i + |r|];
    assert t[|r|..] == s[i + |r|..];
  }

  /** `trim` keeps a contiguous slice of `s` and removes only white space around it. */
  lemma TrimIsSlice(s: string)
    ensures BlankFramedSlice(s, |s| - |TrimStart(s)|, Trim(s))
  {
    var t := TrimStart(s);
    TrimStartDropsWhiteSpace(s);
    TrimEndDropsWhiteSpace(t);
    PrefixOfSuffix(s, t, TrimEnd(t));
  }

  /** White space in front of `s` does not change what `trim` returns. */
  lemma {:induction false} TrimStartSkipsWhiteSpace(w: string, s: string)
    requires AllWhiteSpace(w)
    ensures TrimStart(w + s) == TrimStart(s)
    decreases |w|
  {
    if w == [] {
      assert w + s == s;
    } else {
      assert (w + s)[0] == w[0];
      assert IsWhiteSpace(w[0]);
      assert (w + s)[1..] == w[1..] + s;
      assert AllWhiteSpace(w[1..]) by {
        forall k | 0 <= k < |w| - 1 ensures IsWhiteSpace(w[1..][k]) {
          assert w[1..][k] == w[k + 1];
        }
      }
      TrimStartSkipsWhiteSpace(w[1..], s);
    }
  }

  lemma TrimSkipsLeadingWhiteSpace(w: string, s: string)
    requires AllWhiteSpace(w)
    ensures Trim(w + s) == Trim(s)
  {
    TrimStartSkipsWhiteSpace(w, s);
  }

  /** `s.indexOf(c)`: the first position of `c` in `s`, or -1 when there is none. */
  function IndexOf(s: string, c: char): (r: int)
    ensures -1 <= r < |s|
    ensures r == -1 <==> c !in s
    ensures 0 <= r ==> s[r] == c && c !in s[..r]
  {
    if s == [] then -1
    else if s[0] == c then 0
    else
      var k := IndexOf(s[1..], c);
      assert s[1..][..k + 1] == s[1..k + 2] by { if k >= 0 {} }
      if k == -1 then -1 else k + 1
  }

  /** The first `c` of `s`, at `i`, is the only one up to `i`. */
  lemma CountAround(s: string, i: nat, c: char)
    requires i < |s| && s[i] == c && c !in s[..i]
    ensures multiset(s)[c] == 1 + multiset(s[i + 1..])[c]
  {
    assert s == s[..i] + [c] + s[i + 1..];
    assert multiset(s) == multiset(s[..i]) + multiset{c} + multiset(s[i + 1..]);
  }

  /** No piece of `parts` holds `c`. */
  predicate FreeOf(parts: seq<string>, c: char) {
    forall k :: 0 <= k < |parts| ==> c !in parts[k]
  }

  /** `s.split(c)` for a one-character separator `c`: the pieces between the occurrences of `c`. */
  function Split(s: string, c: char): (parts: seq<string>)
    ensures |parts| == multiset(s)[c] + 1
    ensures FreeOf(parts, c)
    decreases |s|
  {
    var i := IndexOf(s, c);
    if i == -1 then [s]
    else
      CountAround(s, i, c);
      [s[..i]] + Split(s[i + 1..], c)
  }

  /** `parts.join(c)`: the pieces with one `c` between each two. */
  function Join(parts: seq<string>, c: char): string
    requires |parts| > 0
  {
    if |parts| == 1 then parts[0] else parts[0] + [c] + Join(parts[1..], c)
  }

  /** Joining the pieces of a split gives back the string. */
  lemma {:induction false} JoinSplit(s: string, c: char)
    ensures Join(Split(s, c), c) == s
    decreases |s|
  {
    var i := IndexOf(s, c);
    if i != -1 {
      var head, tail := s[..i], s[i + 1..];
      SplitStep(s, c);
      JoinSplit(tail, c);
      JoinCons(head, Split(tail, c), c);
      Reassemble(s, i);
    }
  }

  /** A string holding `c` splits into the part before its first `c` and the split of the rest. */
  lemma SplitStep(s: string, c: char)
    requires c in s
    ensures var i := IndexOf(s, c); Split(s, c) == [s[..i]] + Split(s[i + 1..], c)
  {
  }

  lemma JoinCons(head: string, rest: seq<string>, c: char)
    requires |rest| > 0
    ensures Join([head] + rest, c) == head + [c] + Join(rest, c)
  {
    assert ([head] + rest)[1..] == rest;
  }

  lemma Reassemble(s: string, i: nat)
    requires i < |s|
    ensures s == s[..i] + [s[i]] + s[i + 1..]
  {
  }

  /** The first `c` of `p + [c] + tail`, when `p` has none, is the one after `p`. */
  lemma IndexOfFirst(p: string, c: char, tail: string)
    requires c !in p
    ensures IndexOf(p + [c] + tail, c) == |p|
  {
    assert p + [c] + tail == p + ([c] + tail);
    IndexOfAfterPrefix(p, [c] + tail, c);
  }

  /** Text without `c` put in front of `s` moves the first `c` of `s` right by its length. */
  lemma {:induction false} IndexOfAfterPrefix(p: string, s: string, c: char)
    requires c !in p
    ensures IndexOf(p + s, c) == if c in s then |p| + IndexOf(s, c) else -1
  {
    if p == [] {
      assert p + s == s;
    } else {
      assert (p + s)[1..] == p[1..] + s;
      IndexOfAfterPrefix(p[1..], s, c);
    }
  }

  /** Splitting at the first `c` takes off the text before it as the first piece. */
  lemma SplitAtFirst(p: string, c: char, tail: string)
    requires c !in p
    ensures Split(p + [c] + tail, c) == [p] + Split(tail, c)
  {
    var s := p + [c] + tail;
    IndexOfFirst(p, c, tail);
    assert s[..|p|] == p;
    assert s[|p| + 1..] == tail;
  }

  lemma FreeOfTail(parts: seq<string>, c: char)
    requires |parts| > 0 && FreeOf(parts, c)
    ensures c !in parts[0] && FreeOf(parts[1..], c)
  {
    var rest := parts[1..];
    forall k | 0 <= k < |rest| ensures c !in rest[k] {
      assert rest[k] == parts[k + 1];
    }
  }

  /** Splitting a join of separator-free pieces gives back the pieces. */
  lemma {:induction false} SplitJoin(parts: seq<string>, c: char)
    requires |parts| > 0 && FreeOf(parts, c)
    ensures Split(Join(parts, c), c) == parts
  {
    FreeOfTail(parts, c);
    var p := parts[0];
    if |parts| > 1 {
      var rest := parts[1..];
      var tail := Join(rest, c);
      assert Join(parts, c) == p + [c] + tail;
      SplitAtFirst(p, c, tail);
      SplitJoin(rest, c);
      assert parts == [p] + rest;
    } else {
      assert IndexOf(p, c) == -1;
    }
  }

  /** A string with exactly one `c` splits into the part before it and the part after it. */
  lemma SplitOnce(s: string, c: char)
    requires multiset(s)[c] == 1
    ensures var i := IndexOf(s, c);
      0 <= i && Split(s, c) == [s[..i], s[i + 1..]]
  {
    var i := IndexOf(s, c);
    CountAround(s, i, c);
    assert c !in s[i + 1..];
  }

  /** `s.repeat(n)`: `n` copies of `s` one after another. */
  function Repeat(s: string, n: nat): (r: string)
    ensures |r| == n * |s|
  {
    if n == 0 then [] else s + Repeat(s, n - 1)
  }

  /** Every character of `s` is `c`. */
  predicate AllChar(s: string, c: char) {
    forall k :: 0 <= k < |s| ==> s[k] == c
  }

  /** A repeated one-character string holds that character at every position. */
  lemma {:induction false} RepeatChar(c: char, n: nat)
    ensures |Repeat([c], n)| == n
    ensures AllChar(Repeat([c], n), c)
  {
    if n > 0 {
      RepeatChar(c, n - 1);
    }
  }
}
