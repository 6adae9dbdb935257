/** Character-level string operations: the regex removal of single literal
    characters done on the salary and bonus columns, and the lowercasing of
    collection names. */
module Text {

  /** `s` with every character from `drop` removed. Characters outside `drop`
      all survive, in their original order (see StripAppend). */
  function StripChars(s: string, drop: set<char>): (r: string)
    ensures |r| <= |s|
    ensures forall i :: 0 <= i < |r| ==> r[i] !in drop
    decreases |s|
  {
    if |s| == 0 then ""
    else if s[0] in drop then StripChars(s[1..], drop)
      else [s[0]] + StripChars(s[1..], drop)
  }

  /** Every character outside `drop` occurs as often after stripping as
      before. */
  lemma {:induction false} StripKeepsCounts(s: string, drop: set<char>, c: char)
    requires c !in drop
    ensures multiset(StripChars(s, drop))[c] == multiset(s)[c]
    decreases |s|
  {
    if |s| > 0 {
      assert s == [s[0]] + s[1..];
      StripKeepsCounts(s[1..], drop, c);
    }
  }

  /** Stripping distributes over concatenation: characters are kept or
      removed one by one, and the kept ones stay in source order. */
  lemma {:induction false} StripAppend(a: string, b: string, drop: set<char>)
    ensures StripChars(a + b, drop) == StripChars(a, drop) + StripChars(b, drop)
    decreases |a|
  {
    if |a| == 0 {
      assert a + b == b;
    } else {
      assert (a + b)[1..] == a[1..] + b;
      assert (a + b)[0] == a[0];
      StripAppend(a[1..], b, drop);
    }
  }

  /** A string that holds none of the dropped characters is left as it is. */
  lemma {:induction false} StripNoop(s: string, drop: set<char>)
    requires forall i :: 0 <= i < |s| ==> s[i] !in drop
    ensures StripChars(s, drop) == s
    decreases |s|
  {
    if |s| > 0 {
      StripNoop(s[1..], drop);
    }
  }

  /** Stripping twice with the same characters is the same as stripping once. */
  lemma StripIdempotent(s: string, drop: set<char>)
    ensures StripChars(StripChars(s, drop), drop) == StripChars(s, drop)
  {
    StripNoop(StripChars(s, drop), drop);
  }

  /** Removing the characters of `a` and then those of `b` is one removal of
      the characters of both. */
  lemma {:induction false} StripSequential(s: string, a: set<char>, b: set<char>)
    ensures StripChars(StripChars(s, a), b) == StripChars(s, a + b)
    decreases |s|
  {
    if |s| > 0 {
      StripSequential(s[1..], a, b);
      if s[0] !in a {
        var rest := StripChars(s[1..], a);
        assert ([s[0]] + rest)[1..] == rest;
      }
    }
  }

  /** An ASCII upper-case letter. */
  predicate IsUpper(c: char) {
    'A' <= c <= 'Z'
  }

  /** The lower-case form of one character: ASCII capitals move down by 32
      code points; every other character is kept. */
  function LowerChar(c: char): (r: char)
    ensures !IsUpper(r)
    ensures IsUpper(c) ==> 'a' <= r <= 'z' && r as int - c as int == 32
    ensures !IsUpper(c) ==> r == c
  {
    if IsUpper(c) then (c as int + 32) as char else c
  }

  /** The lower-case form of a string, character by character. */
  function Lower(s: string): (r: string)
    ensures |r| == |s|
    ensures forall i :: 0 <= i < |s| ==> r[i] == LowerChar(s[i])
    ensures forall i :: 0 <= i < |r| ==> !IsUpper(r[i])
    decreases |s|
  {
    if |s| == 0 then "" else [LowerChar(s[0])] + Lower(s[1..])
  }

  /** Lowercasing an already lower-case name changes nothing. */
  lemma LowerIdempotent(s: string)
    ensures Lower(Lower(s)) == Lower(s)
  {
    var once := Lower(s);
    assert forall i :: 0 <= i < |once| ==> LowerChar(once[i]) == once[i];
  }

  /** Two characters that differ at most in ASCII letter case. */
  predicate SameLetter(x: char, y: char) {
    || x == y
    || (IsUpper(x) && y as int == x as int + 32)
    || (IsUpper(y) && x as int == y as int + 32)
  }

  /** Two strings that are equal when letter case is ignored. */
  predicate EqualIgnoringCase(a: string, b: string) {
    |a| == |b| && forall i :: 0 <= i < |a| ==> SameLetter(a[i], b[i])
  }

  /** Two characters lowercase alike exactly when they differ at most in
      letter case. */
  lemma LowerCharEqualIff(x: char, y: char)
    ensures LowerChar(x) == LowerChar(y) <==> SameLetter(x, y)
  {
  }

  /** Lowercasing identifies exactly the strings that differ only in case. */
  lemma LowerEqualIff(a: string, b: string)
    ensures Lower(a) == Lower(b) <==> EqualIgnoringCase(a, b)
  {
    if Lower(a) == Lower(b) {
      forall i | 0 <= i < |a|
        ensures SameLetter(a[i], b[i])
      {
        assert Lower(a)[i] == Lower(b)[i];
        LowerCharEqualIff(a[i], b[i]);
      }
    }
    if EqualIgnoringCase(a, b) {
      forall i | 0 <= i < |a|
        ensures Lower(a)[i] == Lower(b)[i]
      {
        LowerCharEqualIff(a[i], b[i]);
      }
      assert Lower(a) == Lower(b);
    }
  }
}
