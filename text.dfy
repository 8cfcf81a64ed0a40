/** The two string operations the mesh relies on: lower-casing and substring tests. */
module Text {

  /** Lower-cases one ASCII letter and leaves every other character alone. */
  function LowerChar(c: char): char {
    if 'A' <= c <= 'Z' then (c as int + 32) as char else c
  }

  /** `s.lower()` on ASCII text. */
  function Lower(s: string): (r: string)
    ensures |r| == |s|
    ensures forall i :: 0 <= i < |s| ==> r[i] == LowerChar(s[i])
    ensures forall i :: 0 <= i < |r| ==> !('A' <= r[i] <= 'Z')
  {
    seq(|s|, i requires 0 <= i < |s| => LowerChar(s[i]))
  }

  /** Python's `needle in s` on strings: `needle` occurs somewhere in `s`. */
  predicate Contains(s: string, needle: string)
    decreases |s|
  {
    needle <= s || (s != [] && Contains(s[1..], needle))
  }

  /** `needle` starts at position `i` of `s`. */
  predicate OccursAt(s: string, needle: string, i: int) {
    0 <= i && i + |needle| <= |s| && s[i..i + |needle|] == needle
  }

  /** A contained needle occurs at some position. */
  lemma {:induction false} ContainsOccurs(s: string, needle: string) returns (i: int)
    requires Contains(s, needle)
    ensures OccursAt(s, needle, i)
    decreases |s|
  {
    if needle <= s {
      i := 0;
    } else {
      var j := ContainsOccurs(s[1..], needle);
      i := j + 1;
      assert s[i..i + |needle|] == s[1..][j..j + |needle|];
    }
  }

  /** A needle occurring at some position is contained. */
  lemma {:induction false} OccursContains(s: string, needle: string, i: int)
    requires OccursAt(s, needle, i)
    ensures Contains(s, needle)
    decreases i
  {
    if i > 0 {
      assert s[1..][i - 1..i - 1 + |needle|] == s[i..i + |needle|];
      OccursContains(s[1..], needle, i - 1);
    } else {
      assert needle == s[..|needle|];
    }
  }

  /** Contains agrees with the positional definition of an occurrence. */
  lemma ContainsIffOccurs(s: string, needle: string)
    ensures Contains(s, needle) <==> exists i :: OccursAt(s, needle, i)
  {
    if Contains(s, needle) {
      var i := ContainsOccurs(s, needle);
    }
    forall i | OccursAt(s, needle, i)
      ensures Contains(s, needle)
    {
      OccursContains(s, needle, i);
    }
  }

  /** A needle holding a character the text lacks is not contained. */
  lemma {:induction false} MissingCharExcludes(s: string, needle: string, c: char)
    requires c in needle && c !in s
    ensures !Contains(s, needle)
    decreases |s|
  {
    var i :| 0 <= i < |needle| && needle[i] == c;
    if i < |s| {
      assert s[i] != c;
    }
    if s != [] {
      assert c !in s[1..] by {
        assert forall x :: x in s[1..] ==> x in s;
      }
      MissingCharExcludes(s[1..], needle, c);
    }
  }
}
