/** String helpers shared by the models: substring search (`String.prototype.includes`) and
    the ASCII case folding a case-insensitive regular expression applies. */
module Text {

  /** `sub` occurs in `s` starting at index `i`. */
  ghost predicate OccursAt(s: string, sub: string, i: int)
  {
    0 <= i && i + |sub| <= |s| && s[i..i + |sub|] == sub
  }

  /** `s.includes(sub)`: true exactly when `sub` occurs somewhere in `s` (the empty string occurs everywhere). */
  function Contains(s: string, sub: string): (r: bool)
    ensures r <==> exists i :: OccursAt(s, sub, i)
    decreases |s|
  {
    if sub <= s then
      assert OccursAt(s, sub, 0);
      true
    else if |s| == 0 then
      false
    else
      var r := Contains(s[1..], sub);
      assert forall i :: OccursAt(s[1..], sub, i) ==> OccursAt(s, sub, i + 1);
      assert forall i :: OccursAt(s, sub, i) ==> i == 0 || OccursAt(s[1..], sub, i - 1) by {
        forall i | OccursAt(s, sub, i) && i != 0
          ensures OccursAt(s[1..], sub, i - 1)
        {
          assert s[1..][i - 1..i - 1 + |sub|] == s[i..i + |sub|];
        }
      }
      r
  }

  /** No `x` in `s` is directly followed by `y`. */
  predicate PairFree(s: string, x: char, y: char)
  {
    forall j :: 0 <= j < |s| - 1 ==> s[j] != x || s[j + 1] != y
  }

  /** A text lacking one of the letters has no such pair. */
  lemma PairFreeByAbsence(s: string, x: char, y: char)
    requires x !in s || y !in s
    ensures PairFree(s, x, y)
  {
  }

  /** Two pair-free texts joined where the pair does not form stay pair-free. */
  lemma PairFreeJoin(a: string, b: string, x: char, y: char)
    requires PairFree(a, x, y) && PairFree(b, x, y)
    requires |a| > 0 && |b| > 0 ==> a[|a| - 1] != x || b[0] != y
    ensures PairFree(a + b, x, y)
  {
    forall j | 0 <= j < |a + b| - 1 ensures (a + b)[j] != x || (a + b)[j + 1] != y {
      if j < |a| - 1 {
        assert (a + b)[j] == a[j] && (a + b)[j + 1] == a[j + 1];
      } else if j >= |a| {
        assert (a + b)[j] == b[j - |a|] && (a + b)[j + 1] == b[j - |a| + 1];
      }
    }
  }

  /** A text in which two consecutive letters of `sub` never appear next to each other does not
      contain `sub`. */
  lemma PairFreeNotContains(s: string, sub: string, k: nat)
    requires k + 1 < |sub| && PairFree(s, sub[k], sub[k + 1])
    ensures !Contains(s, sub)
  {
    forall i ensures !OccursAt(s, sub, i) {
      if 0 <= i && i + |sub| <= |s| {
        assert s[i..i + |sub|][k] == s[i + k] && s[i..i + |sub|][k + 1] == s[i + k + 1];
      }
    }
  }

  /** The ASCII lower-case letter for an upper-case one; every other character is left as it is. */
  function LowerChar(c: char): char
  {
    if 'A' <= c <= 'Z' then (c as int + 32) as char else c
  }

  function Lower(s: string): string
  {
    seq(|s|, i requires 0 <= i < |s| => LowerChar(s[i]))
  }

  /** `sub` occurs in `s` at index `i` when upper and lower case are not told apart. */
  ghost predicate OccursAtIgnoringCase(s: string, sub: string, i: int)
  {
    0 <= i && i + |sub| <= |s| && forall k :: 0 <= k < |sub| ==> LowerChar(s[i + k]) == LowerChar(sub[k])
  }

  /** Case-insensitive substring search, as a regular expression with the `i` flag does it for ASCII text. */
  function ContainsIgnoringCase(s: string, sub: string): (r: bool)
    ensures r <==> exists i :: OccursAtIgnoringCase(s, sub, i)
  {
    var r := Contains(Lower(s), Lower(sub));
    assert forall i :: OccursAt(Lower(s), Lower(sub), i) <==> OccursAtIgnoringCase(s, sub, i) by {
      forall i
        ensures OccursAt(Lower(s), Lower(sub), i) <==> OccursAtIgnoringCase(s, sub, i)
      {
        if 0 <= i && i + |sub| <= |s| {
          if OccursAt(Lower(s), Lower(sub), i) {
            forall k | 0 <= k < |sub| ensures LowerChar(s[i + k]) == LowerChar(sub[k]) {
              assert Lower(s)[i..i + |sub|][k] == Lower(sub)[k];
            }
          }
          if OccursAtIgnoringCase(s, sub, i) {
            assert Lower(s)[i..i + |sub|] == Lower(sub);
          }
        }
      }
    }
    r
  }
}
