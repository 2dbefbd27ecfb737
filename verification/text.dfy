/** The two string operations the bots rely on: substring search (`t in s`)
    and lower-casing for a comparison against an ASCII literal. */
module Text {

  /** `t` occurs in `s` at position `i`. */
  ghost predicate OccursAt(s: string, t: string, i: int)
  {
    0 <= i && i + |t| <= |s| && s[i..i + |t|] == t
  }

  /** Python's `t in s` for two strings: `t` is a contiguous piece of `s`. */
  predicate Contains(s: string, t: string)
    decreases |s|
  {
    if |s| < |t| then false
    else if s[..|t|] == t then true
    else Contains(s[1..], t)
  }

  /** The scan above finds `t` exactly when some position of `s` holds it. */
  lemma {:induction false} ContainsIff(s: string, t: string)
    ensures Contains(s, t) <==> exists i :: OccursAt(s, t, i)
    decreases |s|
  {
    if |s| < |t| {
      forall i | OccursAt(s, t, i) ensures false { }
    } else if s[..|t|] == t {
      assert OccursAt(s, t, 0);
    } else {
      ContainsIff(s[1..], t);
      if exists i :: OccursAt(s[1..], t, i) {
        var i :| OccursAt(s[1..], t, i);
        assert s[i + 1..i + 1 + |t|] == s[1..][i..i + |t|];
        assert OccursAt(s, t, i + 1);
      }
      if exists i :: OccursAt(s, t, i) {
        var i :| OccursAt(s, t, i);
        assert i != 0;
        assert s[1..][i - 1..i - 1 + |t|] == s[i..i + |t|];
        assert OccursAt(s[1..], t, i - 1);
      }
    }
  }

  /** `t` is found when it occurs at some position. */
  lemma Found(s: string, t: string, i: int)
    requires OccursAt(s, t, i)
    ensures Contains(s, t)
  {
    ContainsIff(s, t);
  }

  /** `t` is absent from `s` when one of its characters is. */
  lemma MissingChar(s: string, t: string, c: char)
    requires c in t && c !in s
    ensures !Contains(s, t)
  {
    ContainsIff(s, t);
    var j :| 0 <= j < |t| && t[j] == c;
    forall i | 0 <= i && i + |t| <= |s| ensures !OccursAt(s, t, i) {
      assert s[i..i + |t|][j] == s[i + j] != c;
    }
  }

  /** `t` is absent from `s` when no position where it could start holds its
      first character. */
  lemma HeadMissing(s: string, t: string)
    requires |t| > 0
    requires forall i :: 0 <= i <= |s| - |t| ==> s[i] != t[0]
    ensures !Contains(s, t)
  {
    ContainsIff(s, t);
    forall i | 0 <= i && i + |t| <= |s| ensures !OccursAt(s, t, i) {
      assert s[i..i + |t|][0] == s[i] != t[0];
    }
  }

  /** An occurrence of `t` in `p + [sep] + c` that starts in `p` and runs
      past it covers the separator. */
  lemma StraddleCoversSeparator(p: string, sep: char, c: string, t: string, i: int)
    requires OccursAt(p + [sep] + c, t, i)
    ensures i <= |p| < i + |t| ==> t[|p| - i] == sep
  {
    var s := p + [sep] + c;
    if i <= |p| < i + |t| {
      assert t[|p| - i] == s[i..i + |t|][|p| - i] == s[|p|];
    }
  }

  /** An occurrence in `p + [sep] + c`, for a `t` without `sep`, is an
      occurrence in `p` or in `c`. */
  lemma OccursAcross(p: string, sep: char, c: string, t: string, i: int)
    requires sep !in t && OccursAt(p + [sep] + c, t, i)
    ensures Contains(p, t) || Contains(c, t)
  {
    var s := p + [sep] + c;
    StraddleCoversSeparator(p, sep, c, t, i);
    if i + |t| <= |p| {
      assert p[i..i + |t|] == s[i..i + |t|];
      Found(p, t, i);
    } else if i > |p| {
      var j := i - |p| - 1;
      assert s[|p| + 1..] == c;
      assert s[i..i + |t|] == s[|p| + 1..][j..j + |t|];
      Found(c, t, j);
    }
  }

  /** A character that `t` lacks splits the search: `t` occurs in
      `p + [sep] + c` exactly when it occurs in `p` or in `c`. With a space
      for `sep` this is a class attribute split into its words. */
  lemma ContainsAcross(p: string, sep: char, c: string, t: string)
    requires sep !in t
    ensures Contains(p + [sep] + c, t) <==> Contains(p, t) || Contains(c, t)
  {
    var s := p + [sep] + c;
    ContainsIff(s, t);
    ContainsIff(p, t);
    ContainsIff(c, t);
    if Contains(p, t) {
      var i :| OccursAt(p, t, i);
      assert s[i..i + |t|] == p[i..i + |t|];
      Found(s, t, i);
    }
    if Contains(c, t) {
      var i :| OccursAt(c, t, i);
      assert s[|p| + 1 + i..|p| + 1 + i + |t|] == c[i..i + |t|];
      Found(s, t, |p| + 1 + i);
    }
    if Contains(s, t) {
      var i :| OccursAt(s, t, i);
      OccursAcross(p, sep, c, t, i);
    }
  }

  /** ASCII lower-casing of one character; every other character is kept. */
  function LowerChar(c: char): (r: char)
    ensures 'A' <= c <= 'Z' ==> 'a' <= r <= 'z' && r as int - c as int == 32
    ensures !('A' <= c <= 'Z') ==> r == c
  {
    if 'A' <= c <= 'Z' then (c as int + 32) as char else c
  }

  /** Python's `str.lower()` as far as a comparison with an ASCII literal can tell. */
  function Lower(s: string): (r: string)
    ensures |r| == |s|
    ensures forall i :: 0 <= i < |s| ==> r[i] == LowerChar(s[i])
  {
    seq(|s|, i requires 0 <= i < |s| => LowerChar(s[i]))
  }

  /** Lower-casing twice is lower-casing once. */
  lemma LowerIdempotent(s: string)
    ensures Lower(Lower(s)) == Lower(s)
  {
    assert forall i :: 0 <= i < |s| ==> LowerChar(LowerChar(s[i])) == LowerChar(s[i]);
  }
}
