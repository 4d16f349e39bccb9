/** The customer id check: the regular expression
    `[a-z0-9]{8}-[a-z0-9]{4}-[a-z0-9]{4}-[a-z0-9]{4}-[a-z0-9]{8}`, unanchored
    and used with `RegExp.prototype.test`, so a string passes when it
    CONTAINS such a 32-character token anywhere. */
module CustomerId {

  /** The length of a token the pattern matches. */
  const TokenLength: nat := 32

  predicate IsLowerAlnum(c: char) {
    ('a' <= c <= 'z') || ('0' <= c <= '9')
  }

  /** `s[i..i + len]` is made of `[a-z0-9]` only. */
  predicate AlnumRun(s: string, i: nat, len: nat)
    requires i + len <= |s|
  {
    forall k :: i <= k < i + len ==> IsLowerAlnum(s[k])
  }

  /** The pattern matches `s` at index `i`. */
  predicate MatchesAt(s: string, i: nat) {
    i + TokenLength <= |s|
    && AlnumRun(s, i, 8) && s[i + 8] == '-'
    && AlnumRun(s, i + 9, 4) && s[i + 13] == '-'
    && AlnumRun(s, i + 14, 4) && s[i + 18] == '-'
    && AlnumRun(s, i + 19, 4) && s[i + 23] == '-'
    && AlnumRun(s, i + 24, 8)
  }

  /** The search for a match at `from` or later. */
  function TestFrom(s: string, from: nat): bool
    decreases |s| - from
  {
    if from + TokenLength > |s| then false
    else MatchesAt(s, from) || TestFrom(s, from + 1)
  }

  /** `CUSTOMER_ID_REGEX.test(s)`: without anchors, case-insensitivity or
      the global flag, it succeeds exactly when the pattern matches
      somewhere in `s`. */
  function Test(s: string): (r: bool)
    ensures r <==> exists i: nat :: MatchesAt(s, i)
  {
    TestFromSpec(s, 0);
    TestFrom(s, 0)
  }

  /** The search from `from` on succeeds exactly when the pattern matches
      at some index at or after `from`. */
  lemma {:induction false} TestFromSpec(s: string, from: nat)
    ensures TestFrom(s, from) <==> exists i: nat :: from <= i && MatchesAt(s, i)
    decreases |s| - from
  {
    if from + TokenLength <= |s| {
      TestFromSpec(s, from + 1);
      if !MatchesAt(s, from) && !TestFrom(s, from + 1) {
        forall i: nat | from <= i
          ensures !MatchesAt(s, i)
        {
          if i != from {
            assert from + 1 <= i;
          }
        }
      }
    }
  }

  /** Because the pattern is unanchored, text around a valid id does not
      make it invalid. */
  lemma Unanchored(before: string, id: string, after: string)
    requires Test(id)
    ensures Test(before + id + after)
  {
    var i: nat :| MatchesAt(id, i);
    var s := before + id + after;
    forall k | 0 <= k < |id|
      ensures s[|before| + k] == id[k]
    {
    }
    assert MatchesAt(s, |before| + i);
  }

  /** A string shorter than a token never passes. */
  lemma TooShort(s: string)
    requires |s| < TokenLength
    ensures !Test(s)
  {
  }

  /** Every character of `s` is in `[a-z0-9]`. */
  predicate AllLowerAlnum(s: string) {
    forall k :: 0 <= k < |s| ==> IsLowerAlnum(s[k])
  }

  /** Five `[a-z0-9]` groups of lengths 8, 4, 4, 4 and 8 joined by hyphens
      form an id that passes. */
  lemma GroupsPass(a: string, b: string, c: string, d: string, e: string)
    requires |a| == 8 && |b| == 4 && |c| == 4 && |d| == 4 && |e| == 8
    requires AllLowerAlnum(a) && AllLowerAlnum(b) && AllLowerAlnum(c) && AllLowerAlnum(d) && AllLowerAlnum(e)
    ensures Test(a + "-" + b + "-" + c + "-" + d + "-" + e)
  {
    var s := a + "-" + b + "-" + c + "-" + d + "-" + e;
    assert |s| == TokenLength;
    forall k | 0 <= k < 8
      ensures s[k] == a[k] && s[24 + k] == e[k]
    {
    }
    forall k | 0 <= k < 4
      ensures s[9 + k] == b[k] && s[14 + k] == c[k] && s[19 + k] == d[k]
    {
    }
    assert MatchesAt(s, 0);
  }

  /** An id cut short after its second group, as in the export fixtures,
      fails. */
  lemma ShortFixtureIdFails()
    ensures !Test("98765432-1234")
  {
    TooShort("98765432-1234");
  }
}
