/**
  The case-insensitive matcher with '*' and '?' on one side. A star is followed greedily: it runs to the first
  occurrence of the character after it and is never reconsidered.
 */
module Globular {

  function Lower(c: char): (r: char)
    ensures r == '*' <==> c == '*'
    ensures r == '?' <==> c == '?'
    ensures !('A' <= r <= 'Z')
  {
    if 'A' <= c <= 'Z' then ((c as int) - ('A' as int) + ('a' as int)) as char else c
  }

  const UPPER := "ABCDEFGHIJKLMNOPQRSTUVWXYZ"
  const LOWER := "abcdefghijklmnopqrstuvwxyz"

  /** The two cases of one Latin letter, either way round. */
  ghost predicate TwoCases(c: char, d: char) {
    exists i :: 0 <= i < 26 && ((c == UPPER[i] && d == LOWER[i]) || (c == LOWER[i] && d == UPPER[i]))
  }

  lemma Letters()
    ensures |UPPER| == 26 && |LOWER| == 26
    ensures forall i :: 0 <= i < 26 ==> UPPER[i] as int == 65 + i && LOWER[i] as int == 97 + i
  {
  }

  lemma CaseOf(i: nat)
    requires i < 26
    ensures Lower(UPPER[i]) == LOWER[i] == Lower(LOWER[i])
  {
    Letters();
  }

  lemma OtherCase(c: char, d: char)
    requires Lower(c) == Lower(d) && c < d
    ensures TwoCases(c, d)
  {
    Letters();
    var i := c as int - 65;
    assert 0 <= i < 26 && UPPER[i] as int == c as int && LOWER[i] as int == d as int;
  }

  lemma TwoCasesSwap(c: char, d: char)
    requires TwoCases(c, d)
    ensures TwoCases(d, c)
  {
  }

  /** Characters are the same in lower case exactly when they are the same or the two cases of one letter. */
  lemma LowerIff(c: char, d: char)
    ensures Lower(c) == Lower(d) <==> c == d || TwoCases(c, d)
  {
    if Lower(c) == Lower(d) {
      if c < d {
        OtherCase(c, d);
      } else if d < c {
        OtherCase(d, c);
        TwoCasesSwap(d, c);
      }
    }
    if TwoCases(c, d) {
      var i :| 0 <= i < 26 && ((c == UPPER[i] && d == LOWER[i]) || (c == LOWER[i] && d == UPPER[i]));
      CaseOf(i);
    }
  }

  // -------------------------------------------------------------- what a pattern means

  predicate Fits(p: char, c: char) {
    p == '?' || Lower(p) == Lower(c)
  }

  /** A question mark fits every character; anything else fits itself, in either case. */
  lemma FitsIff(p: char, c: char)
    ensures Fits(p, c) <==> p == '?' || p == c || TwoCases(p, c)
  {
    LowerIff(p, c);
  }

  /** The usual meaning: a star stands for any run, a question mark for any one character. */
  ghost predicate Glob(a: string, b: string)
    decreases |a|
  {
    if a == "" then b == ""
    else if a[0] == '*' then exists k :: 0 <= k <= |b| && Glob(a[1..], b[k..])
    else b != "" && Fits(a[0], b[0]) && Glob(a[1..], b[1..])
  }

  predicate EqualsIgnoringCase(a: string, b: string) {
    |a| == |b| && forall k :: 0 <= k < |a| ==> Lower(a[k]) == Lower(b[k])
  }

  // -------------------------------------------------------------- what is accepted

  /** What the matcher accepts. */
  predicate Accepts(a: string, b: string)
    decreases |b|
  {
    if a == "" then b == ""
    else if b == "" then false
    else if a == "*" then true
    else if a[0] != '*' then Fits(a[0], b[0]) && Accepts(a[1..], b[1..])
    else if Lower(b[0]) != Lower(a[1]) then Accepts(a, b[1..])
    else a == "**" || Accepts(a[2..], b[1..])
  }

  /** Whether the pattern was used up with a star as the target of the star before it. */
  predicate Swallowed(a: string, ap: nat) {
    ap == |a| && a != "" && a[|a| - 1] == '*'
  }

  method Match(a: string, b: string) returns (yes: bool)
    ensures yes == Accepts(a, b)
    ensures yes ==> Glob(a, b)
  {
    if Accepts(a, b) {
      Sound(a, b);
    }
    hide Glob;
    var ap: nat, bp: nat := 0, 0;
    while ap < |a| && bp < |b|
      invariant ap <= |a| && bp <= |b|
      invariant Accepts(a, b) == (Swallowed(a, ap) || Accepts(a[ap..], b[bp..]))
    {
      var ca, cb := Lower(a[ap]), Lower(b[bp]);
      var globa, wilda := ca == '*', ca == '?';
      if !globa && !wilda && ca != cb {
        return false;
      }
      if globa && ap + 1 >= |a| {
        assert a[ap..] == "*";
        break;
      }
      assert b[bp..][1..] == b[bp + 1..];
      assert globa ==> a[ap..][1] == a[ap + 1] && a[ap..][2..] == a[ap + 2..];
      assert !globa ==> a[ap..][1..] == a[ap + 1..];
      if globa && cb == Lower(a[ap + 1]) {
        assert a[ap..] == "**" <==> Swallowed(a, ap + 2);
        ap := ap + 2;
      }
      if !globa {
        ap := ap + 1;
      }
      bp := bp + 1;
    }
    if bp < |b| && a != "" && a[|a| - 1] == '*' {
      return true;
    }
    return EqualsIgnoringCase(a[ap..], b[bp..]);
  }

  // -------------------------------------------------------------- soundness and its limits

  /** Whatever is accepted is a true match. */
  lemma {:induction false} Sound(a: string, b: string)
    requires Accepts(a, b)
    ensures Glob(a, b)
    decreases |b|
  {
    if a == "" {
    } else if a == "*" {
      assert Glob(a[1..], b[|b|..]);
    } else if a[0] != '*' {
      Sound(a[1..], b[1..]);
    } else if Lower(b[0]) != Lower(a[1]) {
      Sound(a, b[1..]);
      var k :| 0 <= k <= |b[1..]| && Glob(a[1..], b[1..][k..]);
      assert b[1..][k..] == b[k + 1..];
    } else {
      if a == "**" {
        assert a[1..][1..] == "" && Glob(a[1..][1..], b[|b|..]);
      } else {
        Sound(a[2..], b[1..]);
        assert a[1..][1..] == a[2..] && Glob(a[1..][1..], b[1..]);
      }
      assert Glob(a[1..], b) && b[0..] == b;
    }
  }

  /** Without a star nothing is lost. */
  lemma {:induction false} StarFree(a: string, b: string)
    requires '*' !in a
    ensures Accepts(a, b) == Glob(a, b)
    decreases |b|
  {
    if a != "" && b != "" {
      StarFree(a[1..], b[1..]);
    }
  }

  /** The characters of a pattern without a star fit those of a string of the same length, one by one. */
  ghost predicate FitsEach(s: string, b: string) {
    |s| == |b| && forall i :: 0 <= i < |s| ==> Fits(s[i], b[i])
  }

  /** What comes before the first star takes as many characters, and the rest of the pattern the rest of the string. */
  lemma {:induction false} BeforeTheStar(s: string, t: string, b: string)
    requires '*' !in s && t != "" && t[0] == '*'
    ensures Accepts(s + t, b) <==> |s| <= |b| && FitsEach(s, b[..|s|]) && Accepts(t, b[|s|..])
    decreases |s|
  {
    if s == "" {
      assert s + t == t && b[0..] == b;
    } else if b != "" {
      assert (s + t)[1..] == s[1..] + t;
      BeforeTheStar(s[1..], t, b[1..]);
      if |s| <= |b| {
        assert b[1..][..|s| - 1] == b[..|s|][1..] && b[1..][|s| - 1..] == b[|s|..];
        FitsRest(s, b[..|s|]);
      }
    }
  }

  lemma FitsRest(s: string, b: string)
    requires s != "" && |s| == |b|
    ensures FitsEach(s, b) <==> Fits(s[0], b[0]) && FitsEach(s[1..], b[1..])
  {
    if Fits(s[0], b[0]) && FitsEach(s[1..], b[1..]) {
      forall i | 0 <= i < |s| ensures Fits(s[i], b[i]) {
        assert i > 0 ==> s[i] == s[1..][i - 1] && b[i] == b[1..][i - 1];
      }
    }
  }

  /** A star at the end takes any rest but the empty one. */
  lemma TrailingStar(s: string, b: string)
    requires '*' !in s
    ensures Accepts(s + "*", b) <==> |b| > |s| && FitsEach(s, b[..|s|])
  {
    BeforeTheStar(s, "*", b);
  }

  /** Without a star at all the characters fit one by one. */
  lemma {:induction false} StarFreeIff(s: string, b: string)
    requires '*' !in s
    ensures Accepts(s, b) <==> FitsEach(s, b)
    decreases |s|
  {
    if s != "" && b != "" {
      StarFreeIff(s[1..], b[1..]);
      if |s| == |b| {
        FitsRest(s, b);
      }
    }
  }

  /** The star and the character after it take b up to its first occurrence, at k, and the rest is accepted. */
  ghost predicate FirstStop(a: string, b: string, k: int)
    requires |a| >= 2
  {
    && 0 <= k < |b| && Lower(b[k]) == Lower(a[1])
    && (forall j :: 0 <= j < k ==> Lower(b[j]) != Lower(a[1]))
    && (a == "**" || Accepts(a[2..], b[k + 1..]))
  }

  lemma FirstStopShifts(a: string, b: string, k: nat)
    requires |a| >= 2 && b != "" && Lower(b[0]) != Lower(a[1])
    ensures FirstStop(a, b, k + 1) <==> FirstStop(a, b[1..], k)
  {
    var t := b[1..];
    assert forall j :: 0 <= j < |t| ==> t[j] == b[j + 1];
    if k < |t| {
      assert t[k + 1..] == b[k + 2..];
    }
    if FirstStop(a, b, k + 1) {
      forall j | 0 <= j < k ensures Lower(t[j]) != Lower(a[1]) {
        assert t[j] == b[j + 1];
      }
    }
  }

  /** A star that is not the last character takes everything before the first occurrence of the one after it. */
  lemma {:induction false} StarTakesTheFirst(a: string, b: string)
    requires |a| >= 2 && a[0] == '*'
    ensures Accepts(a, b) <==> exists k :: FirstStop(a, b, k)
    decreases |b|
  {
    if b == "" {
    } else if Lower(b[0]) == Lower(a[1]) {
      assert FirstStop(a, b, 0) <==> Accepts(a, b);
    } else {
      StarTakesTheFirst(a, b[1..]);
      forall k: nat ensures FirstStop(a, b, k + 1) <==> FirstStop(a, b[1..], k) {
        FirstStopShifts(a, b, k);
      }
      if k :| FirstStop(a, b, k) {
        assert FirstStop(a, b[1..], k - 1);
      }
      if k :| FirstStop(a, b[1..], k) {
        assert FirstStop(a, b, k + 1);
      }
    }
  }

  /** The shortest match of a pattern: nothing for a star, an 'x' for a question mark. */
  ghost function Shortest(a: string): (b: string)
    ensures '*' !in b && '?' !in b
  {
    if a == "" then ""
    else (if a[0] == '*' then "" else if a[0] == '?' then "x" else [a[0]]) + Shortest(a[1..])
  }

  lemma {:induction false} ShortestMatches(a: string)
    ensures Glob(a, Shortest(a))
  {
    if a != "" {
      ShortestMatches(a[1..]);
      var t := Shortest(a[1..]);
      if a[0] == '*' {
        assert t[0..] == t;
      } else {
        assert Shortest(a)[1..] == t;
      }
    }
  }

  lemma {:induction false} NothingToStopAt(a: string, b: string)
    requires |a| >= 2 && a[0] == '*' && a[1] in "*?" && '*' !in b && '?' !in b
    ensures !Accepts(a, b)
  {
    if b != "" {
      NothingToStopAt(a, b[1..]);
    }
  }

  /** A true match that is refused, for a pattern with a star. */
  ghost function Missed(a: string): (b: string)
    requires '*' in a
  {
    if a == "*" then ""
    else if a[0] == '?' then "x" + Missed(a[1..])
    else if a[0] != '*' then [a[0]] + Missed(a[1..])
    else if a[1] in "*?" then Shortest(a)
    else if '*' in a[2..] then [a[1]] + Missed(a[2..])
    else [a[1], a[1]] + Shortest(a[2..])
  }

  lemma {:induction false} MissedIsRefused(a: string)
    requires '*' in a
    ensures Glob(a, Missed(a)) && !Accepts(a, Missed(a))
  {
    var b := Missed(a);
    if a == "*" {
      assert Glob(a[1..], b[0..]);
    } else if a[0] != '*' {
      MissedIsRefused(a[1..]);
      assert b[1..] == Missed(a[1..]);
    } else if a[1] in "*?" {
      ShortestMatches(a);
      NothingToStopAt(a, b);
    } else if '*' in a[2..] {
      MissedIsRefused(a[2..]);
      assert b[1..] == Missed(a[2..]) && a[1..][1..] == a[2..];
      assert Glob(a[1..], b[0..]);
    } else {
      var t := Shortest(a[2..]);
      ShortestMatches(a[2..]);
      assert b[1..][1..] == t && a[1..][1..] == a[2..];
      assert Glob(a[1..], b[1..]);
      StarFree(a[2..], b[1..]);
      GlobLength(a[2..], b[1..]);
      GlobLength(a[2..], t);
    }
  }

  lemma {:induction false} GlobLength(a: string, b: string)
    requires '*' !in a
    ensures Glob(a, b) ==> |b| == |a|
  {
    if a != "" && b != "" {
      GlobLength(a[1..], b[1..]);
    }
  }

  /** A pattern is matched exactly, on every string, if and only if it has no star. */
  lemma ExactIffStarFree(a: string)
    ensures (forall b :: Accepts(a, b) == Glob(a, b)) <==> '*' !in a
  {
    if '*' in a {
      MissedIsRefused(a);
    } else {
      forall b ensures Accepts(a, b) == Glob(a, b) {
        StarFree(a, b);
      }
    }
  }
}
