/** The JavaScript string primitives the roster code relies on, over
    `string` = `seq<char>`: `toLowerCase`, `trim`, `includes`, `split` on a
    character or on `/\s+/`, and `join`. */
module Text {

  /** The characters JavaScript's `\s` and `String.prototype.trim` treat as
      white space (WhiteSpace and LineTerminator of ECMA-262). */
  predicate IsSpace(c: char) {
    || c == ' ' || c == '\t' || c == '\n' || c == '\r'
    || c == '\U{000B}' || c == '\U{000C}' || c == '\U{00A0}' || c == '\U{1680}'
    || ('\U{2000}' <= c <= '\U{200A}')
    || c == '\U{2028}' || c == '\U{2029}' || c == '\U{202F}' || c == '\U{205F}'
    || c == '\U{3000}' || c == '\U{FEFF}'
  }

  /** No character of `s` is white space. */
  predicate SpaceFree(s: string) {
    forall i :: 0 <= i < |s| ==> !IsSpace(s[i])
  }

  /** `toLowerCase` on one character, for ASCII and Latin-1 letters. */
  function LowerChar(c: char): (r: char)
    ensures IsSpace(r) == IsSpace(c)
  {
    if 'A' <= c <= 'Z' || ('\U{00C0}' <= c <= '\U{00DE}' && c != '\U{00D7}')
    then (c as int + 32) as char
    else c
  }

  /** `s.toLowerCase()` (ASCII and Latin-1 letters). */
  function Lower(s: string): (r: string)
    ensures |r| == |s|
  {
    seq(|s|, i requires 0 <= i < |s| => LowerChar(s[i]))
  }

  /** `s.trimStart()`: `s` without its leading white space. */
  function TrimStart(s: string): (r: string)
    ensures |r| <= |s|
    ensures s != [] && IsSpace(s[0]) ==> |r| < |s|
  {
    if s != [] && IsSpace(s[0]) then TrimStart(s[1..]) else s
  }

  /** `trimStart` removes exactly the leading run of white space: what is
      left is a suffix that does not start with white space. */
  lemma {:induction false} TrimStartShape(s: string)
    ensures TrimStart(s) == s[|s| - |TrimStart(s)|..]
    ensures TrimStart(s) == [] || !IsSpace(TrimStart(s)[0])
    ensures forall i :: 0 <= i < |s| - |TrimStart(s)| ==> IsSpace(s[i])
  {
    if s != [] && IsSpace(s[0]) {
      TrimStartShape(s[1..]);
    }
  }

  /** `s.trimEnd()`: `s` without its trailing white space. */
  function TrimEnd(s: string): (r: string)
    ensures |r| <= |s|
  {
    if s != [] && IsSpace(s[|s| - 1]) then TrimEnd(s[..|s| - 1]) else s
  }

  /** `trimEnd` removes exactly the trailing run of white space: what is
      left is a prefix that does not end with white space. */
  lemma {:induction false} TrimEndShape(s: string)
    ensures TrimEnd(s) == s[..|TrimEnd(s)|]
    ensures TrimEnd(s) == [] || !IsSpace(TrimEnd(s)[|TrimEnd(s)| - 1])
    ensures forall i :: |TrimEnd(s)| <= i < |s| ==> IsSpace(s[i])
  {
    if s != [] && IsSpace(s[|s| - 1]) {
      TrimEndShape(s[..|s| - 1]);
    }
  }

  /** `s.trim()`. */
  function Trim(s: string): string {
    TrimEnd(TrimStart(s))
  }

  /** `s` has neither leading nor trailing white space. */
  predicate IsTrimmed(s: string) {
    s == [] || (!IsSpace(s[0]) && !IsSpace(s[|s| - 1]))
  }

  /** `trim` yields a string stripped at both ends, made of characters of
      its input. */
  lemma TrimIsTrimmed(s: string)
    ensures IsTrimmed(Trim(s))
    ensures forall c :: c in Trim(s) ==> c in s
  {
    var a := TrimStart(s);
    var t := TrimEnd(a);
    TrimStartShape(s);
    TrimEndShape(a);
    assert t == a[..|t|];
    assert a == s[|s| - |a|..];
    if t != [] {
      assert t[0] == a[0];
    }
  }

  /** `trim` changes nothing on a string that is already trimmed. */
  lemma TrimOfTrimmed(s: string)
    requires IsTrimmed(s)
    ensures Trim(s) == s
  {
  }

  /** `trim` is idempotent. */
  lemma TrimIdempotent(s: string)
    ensures Trim(Trim(s)) == Trim(s)
  {
    TrimIsTrimmed(s);
    TrimOfTrimmed(Trim(s));
  }

  /** A string made only of white space trims to the empty string. */
  lemma TrimAllSpace(s: string)
    requires forall i :: 0 <= i < |s| ==> IsSpace(s[i])
    ensures Trim(s) == []
  {
    TrimStartShape(s);
  }

  /** `hay.includes(needle)`, written the way a naive search runs: try
      each starting position from left to right. */
  predicate Contains(hay: string, needle: string)
    decreases |hay|
  {
    (|needle| <= |hay| && hay[..|needle|] == needle)
    || (hay != [] && Contains(hay[1..], needle))
  }

  /** `needle` occurs in `hay` starting at position `i`. */
  predicate OccursAt(hay: string, needle: string, i: nat) {
    i + |needle| <= |hay| && hay[i..i + |needle|] == needle
  }

  /** A search that succeeds found `needle` at some position. */
  lemma {:induction false} ContainsWitness(hay: string, needle: string) returns (i: nat)
    requires Contains(hay, needle)
    ensures OccursAt(hay, needle, i)
    decreases |hay|
  {
    if |needle| <= |hay| && hay[..|needle|] == needle {
      i := 0;
      assert hay[0..0 + |needle|] == hay[..|needle|];
    } else {
      var j := ContainsWitness(hay[1..], needle);
      assert hay[1..][j..j + |needle|] == hay[j + 1..j + 1 + |needle|];
      i := j + 1;
    }
  }

  /** A search finds `needle` wherever it occurs. */
  lemma {:induction false} OccursContains(hay: string, needle: string, i: nat)
    requires OccursAt(hay, needle, i)
    ensures Contains(hay, needle)
    decreases i
  {
    if i == 0 {
      assert hay[..|needle|] == hay[0..0 + |needle|];
    } else {
      assert hay[1..][i - 1..i - 1 + |needle|] == hay[i..i + |needle|];
      OccursContains(hay[1..], needle, i - 1);
    }
  }

  /** `includes` agrees with the definition by position: `needle` occurs in
      `hay` exactly when some slice of `hay` equals it. */
  lemma ContainsIff(hay: string, needle: string)
    ensures Contains(hay, needle) <==> exists i: nat :: OccursAt(hay, needle, i)
  {
    if Contains(hay, needle) {
      var i := ContainsWitness(hay, needle);
    }
    if exists i: nat :: OccursAt(hay, needle, i) {
      var i: nat :| OccursAt(hay, needle, i);
      OccursContains(hay, needle, i);
    }
  }

  /** What `hay` includes is no longer than `hay` and made of its
      characters. */
  lemma {:induction false} ContainsBounds(hay: string, needle: string)
    requires Contains(hay, needle)
    ensures |needle| <= |hay|
    ensures forall c :: c in needle ==> c in hay
    decreases |hay|
  {
    if |needle| <= |hay| && hay[..|needle|] == needle {
      assert forall c :: c in needle ==> c in hay by {
        forall c | c in needle ensures c in hay {
          var i :| 0 <= i < |needle| && needle[i] == c;
          assert hay[i] == c;
        }
      }
    } else {
      ContainsBounds(hay[1..], needle);
      forall c | c in needle ensures c in hay {
        assert c in hay[1..];
      }
    }
  }

  /** Every string includes the empty string. */
  lemma ContainsEmpty(hay: string)
    ensures Contains(hay, [])
  {
    assert hay[..0] == [];
  }

  /** Every string includes itself. */
  lemma ContainsSelf(s: string)
    ensures Contains(s, s)
  {
    assert s[..|s|] == s;
  }

  /** What a string includes, any string it is part of includes too. */
  lemma ContainsWithin(a: string, b: string, c: string, needle: string)
    requires Contains(b, needle)
    ensures Contains(a + b + c, needle)
  {
    var i := ContainsWitness(b, needle);
    assert (a + b + c)[|a| + i..|a| + i + |needle|] == b[i..i + |needle|];
    OccursContains(a + b + c, needle, |a| + i);
  }

  /** What the lower-cased `b` includes, the lower-cased `a + b + c`
      includes too. */
  lemma ContainsLowerWithin(a: string, b: string, c: string, needle: string)
    requires Contains(Lower(b), needle)
    ensures Contains(Lower(a + b + c), needle)
  {
    LowerAppend(a + b, c);
    LowerAppend(a, b);
    ContainsWithin(Lower(a), Lower(b), Lower(c), needle);
  }

  /** `toLowerCase` works character by character. */
  lemma LowerAppend(a: string, b: string)
    ensures Lower(a + b) == Lower(a) + Lower(b)
  {
  }

  /** `toLowerCase` is idempotent. */
  lemma LowerIdempotent(s: string)
    ensures Lower(Lower(s)) == Lower(s)
  {
  }

  /** `xs.join(sep)`. */
  function Join(xs: seq<string>, sep: string): string {
    if |xs| == 0 then []
    else if |xs| == 1 then xs[0]
    else xs[0] + sep + Join(xs[1..], sep)
  }

  /** Joining peels off the last element: `join(xs) == join(init) + sep + last`. */
  lemma {:induction false} JoinSnoc(xs: seq<string>, sep: string)
    requires |xs| >= 2
    ensures Join(xs, sep) == Join(xs[..|xs| - 1], sep) + sep + xs[|xs| - 1]
  {
    if |xs| > 2 {
      JoinSnoc(xs[1..], sep);
      assert xs[1..][..|xs[1..]| - 1] == xs[..|xs| - 1][1..];
    }
  }

  /** A character absent from the pieces and the separator is absent from
      the joined string. */
  lemma {:induction false} JoinAvoids(xs: seq<string>, sep: string, c: char)
    requires c !in sep
    requires forall k :: 0 <= k < |xs| ==> c !in xs[k]
    ensures c !in Join(xs, sep)
  {
    if |xs| >= 2 {
      JoinAvoids(xs[1..], sep, c);
    }
  }

  /** The position of the first `c` in `s`, or `|s|` when there is none. */
  function IndexOf(s: string, c: char): (i: nat)
    ensures i <= |s|
    ensures i < |s| ==> s[i] == c
    ensures forall j :: 0 <= j < i ==> s[j] != c
  {
    if s == [] then 0 else if s[0] == c then 0 else 1 + IndexOf(s[1..], c)
  }

  /** `s.split(c)` for a one-character separator: the pieces between the
      occurrences of `c`; `"".split(c)` is `[""]`. */
  function SplitOn(s: string, c: char): (parts: seq<string>)
    ensures |parts| >= 1
    decreases |s|
  {
    var i := IndexOf(s, c);
    if i == |s| then [s] else [s[..i]] + SplitOn(s[i + 1..], c)
  }

  /** Splitting undoes joining when no piece contains the separator
      (there is no escaping, so this is the only case where it does). */
  lemma {:induction false} SplitJoin(xs: seq<string>, c: char)
    requires |xs| >= 1
    requires forall k :: 0 <= k < |xs| ==> c !in xs[k]
    ensures SplitOn(Join(xs, [c]), c) == xs
  {
    if |xs| == 1 {
      assert IndexOf(xs[0], c) == |xs[0]|;
    } else {
      var s := Join(xs, [c]);
      var x := xs[0];
      assert s == x + [c] + Join(xs[1..], [c]);
      assert s[|x|] == c;
      var i := IndexOf(s, c);
      assert i == |x|;
      assert s[..i] == x;
      assert s[i + 1..] == Join(xs[1..], [c]);
      SplitJoin(xs[1..], c);
      assert xs == [x] + xs[1..];
    }
  }

  /** The position of the first white-space character of `s`, or `|s|`. */
  function FirstSpace(s: string): (i: nat)
    ensures i <= |s|
    ensures i < |s| ==> IsSpace(s[i])
    ensures forall j :: 0 <= j < i ==> !IsSpace(s[j])
  {
    if s == [] then 0 else if IsSpace(s[0]) then 0 else 1 + FirstSpace(s[1..])
  }

  /** `t.split(/\s+/)`: the pieces between maximal runs of white space,
      with an empty first (last) piece when `t` starts (ends) with one. */
  function SplitWs(t: string): (parts: seq<string>)
    ensures |parts| >= 1
    decreases |t|
  {
    var k := FirstSpace(t);
    if k == |t| then [t] else [t[..k]] + SplitWs(TrimStart(t[k..]))
  }

  /** `t` with every maximal run of white space replaced by one blank. */
  function Squash(t: string): string
    decreases |t|
  {
    if t == [] then []
    else if IsSpace(t[0]) then [' '] + Squash(TrimStart(t))
    else [t[0]] + Squash(t[1..])
  }

  /** A piece without white space passes through `Squash` unchanged. */
  lemma {:induction false} SquashSpaceFreePrefix(w: string, u: string)
    requires SpaceFree(w)
    ensures Squash(w + u) == w + Squash(u)
  {
    if w != [] {
      assert (w + u)[0] == w[0] && !IsSpace(w[0]);
      assert (w + u)[1..] == w[1..] + u;
      assert SpaceFree(w[1..]) by {
        forall i | 0 <= i < |w[1..]| ensures !IsSpace(w[1..][i]) {
          assert w[1..][i] == w[i + 1];
        }
      }
      SquashSpaceFreePrefix(w[1..], u);
      assert w == [w[0]] + w[1..];
    } else {
      assert w + u == u;
    }
  }

  /** Splitting on white-space runs and joining with one blank collapses
      white space: it is `Squash`. */
  lemma {:induction false} JoinSplitWsIsSquash(t: string)
    ensures Join(SplitWs(t), " ") == Squash(t)
    decreases |t|
  {
    var k := FirstSpace(t);
    if k == |t| {
      SquashSpaceFreePrefix(t, []);
      assert t + [] == t;
    } else {
      var w, u := t[..k], t[k..];
      var rest := TrimStart(u);
      TrimStartShape(u);
      assert t == w + u;
      SquashSpaceFreePrefix(w, u);
      assert Squash(u) == [' '] + Squash(rest);
      JoinSplitWsIsSquash(rest);
      var parts := SplitWs(t);
      assert parts == [w] + SplitWs(rest);
      assert parts[1..] == SplitWs(rest);
    }
  }

  /** No piece of a white-space split contains white space. */
  lemma {:induction false} SplitWsSpaceFree(t: string)
    ensures forall p :: p in SplitWs(t) ==> SpaceFree(p)
    decreases |t|
  {
    var k := FirstSpace(t);
    if k < |t| {
      SplitWsSpaceFree(TrimStart(t[k..]));
    }
  }

  /** Splitting a trimmed string on white space: its pieces are all non-empty,
      and there is a single piece exactly when it contains no white space. */
  lemma {:induction false} SplitWsOfTrimmed(t: string)
    requires t != [] && IsTrimmed(t)
    ensures forall p :: p in SplitWs(t) ==> p != []
    ensures |SplitWs(t)| == 1 <==> SpaceFree(t)
    decreases |t|
  {
    var k := FirstSpace(t);
    if k < |t| {
      assert k > 0;
      var rest := TrimmedTail(t, k);
      SplitWsOfTrimmed(rest);
      var parts := SplitWs(t);
      assert parts == [t[..k]] + SplitWs(rest);
      assert |parts| >= 2;
      forall p | p in parts ensures p != [] {
        if p != t[..k] {
          assert p in SplitWs(rest);
        }
      }
    }
  }

  /** What follows the first white-space run of a trimmed string is itself
      trimmed and non-empty. */
  lemma TrimmedTail(t: string, k: nat) returns (rest: string)
    requires t != [] && IsTrimmed(t) && k < |t| && IsSpace(t[k])
    ensures rest == TrimStart(t[k..])
    ensures rest != [] && IsTrimmed(rest) && |rest| < |t|
  {
    var u := t[k..];
    rest := TrimStart(u);
    TrimStartShape(u);
    assert u[|u| - 1] == t[|t| - 1];
    assert rest[|rest| - 1] == u[|u| - 1];
  }
}
