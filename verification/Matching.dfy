/** `StringMatcher`: wildcard masks. A C string is the sequence of its bytes before the terminating zero. */
module Matching {
  import opened Bytes

  const STAR: Byte := 42

  /** `std::tolower` in the "C" locale. */
  function Lower(c: Byte): Byte {
    if 65 <= c <= 90 then c + 32 else c
  }

  predicate Same(a: Byte, b: Byte, ci: bool) {
    if ci then Lower(a) == Lower(b) else a == b
  }

  predicate Like(a: seq<Byte>, b: seq<Byte>, ci: bool) {
    |a| == |b| && forall i :: 0 <= i < |a| ==> Same(a[i], b[i], ci)
  }

  // ---------------------------------------------------------------------------------------------
  // The language of a mask
  // ---------------------------------------------------------------------------------------------

  function Stars(mask: seq<Byte>): nat {
    if mask == [] then 0 else (if mask[0] == STAR then 1 else 0) + Stars(mask[1..])
  }

  /** The mask with its asterisks, in order, replaced by strings. */
  function Fill(mask: seq<Byte>, fills: seq<seq<Byte>>): seq<Byte>
    requires |fills| == Stars(mask)
  {
    if mask == [] then []
    else if mask[0] == STAR then fills[0] + Fill(mask[1..], fills[1..])
    else [mask[0]] + Fill(mask[1..], fills)
  }

  predicate Spells(str: seq<Byte>, mask: seq<Byte>, fills: seq<seq<Byte>>, ci: bool) {
    |fills| == Stars(mask) && Like(str, Fill(mask, fills), ci)
  }

  /** A string is in the language of a mask if some choice of strings for the asterisks turns the mask into it. */
  ghost predicate InLanguage(str: seq<Byte>, mask: seq<Byte>, ci: bool) {
    exists fills: seq<seq<Byte>> :: Spells(str, mask, fills, ci)
  }

  lemma {:induction false} EmptyMask(str: seq<Byte>, ci: bool)
    ensures InLanguage(str, [], ci) <==> str == []
  {
    if str == [] {
      assert Spells(str, [], [], ci);
    }
  }

  lemma {:induction false} LiteralFirst(str: seq<Byte>, mask: seq<Byte>, ci: bool)
    requires mask != [] && mask[0] != STAR
    ensures InLanguage(str, mask, ci) <==> str != [] && Same(str[0], mask[0], ci) && InLanguage(str[1..], mask[1..], ci)
  {
    if InLanguage(str, mask, ci) {
      var fills :| Spells(str, mask, fills, ci);
      LiteralSpells(str, mask, fills, ci);
    }
    if str != [] && InLanguage(str[1..], mask[1..], ci) {
      var fills :| Spells(str[1..], mask[1..], fills, ci);
      LiteralSpells(str, mask, fills, ci);
    }
  }

  lemma {:induction false} LiteralSpells(str: seq<Byte>, mask: seq<Byte>, fills: seq<seq<Byte>>, ci: bool)
    requires mask != [] && mask[0] != STAR
    ensures Spells(str, mask, fills, ci) <==>
            str != [] && Same(str[0], mask[0], ci) && Spells(str[1..], mask[1..], fills, ci)
  {
    if |fills| == Stars(mask) && str != [] {
      LikeHead(str, mask[0], Fill(mask[1..], fills), ci);
    }
  }

  lemma {:induction false} LikeHead(str: seq<Byte>, c: Byte, rest: seq<Byte>, ci: bool)
    requires str != []
    ensures Like(str, [c] + rest, ci) <==> Same(str[0], c, ci) && Like(str[1..], rest, ci)
  {
    if Like(str, [c] + rest, ci) {
      assert ([c] + rest)[0] == c;
      assert forall i :: 0 <= i < |rest| ==> ([c] + rest)[i + 1] == rest[i];
    }
  }

  lemma {:induction false} LikeTail(str: seq<Byte>, fill: seq<Byte>, rest: seq<Byte>, ci: bool)
    requires Like(str, fill + rest, ci)
    ensures |fill| <= |str| && Like(str[|fill|..], rest, ci)
  {
    assert forall i :: 0 <= i < |rest| ==> (fill + rest)[i + |fill|] == rest[i];
  }

  lemma {:induction false} LikePad(fill: seq<Byte>, str: seq<Byte>, rest: seq<Byte>, ci: bool)
    requires Like(str, rest, ci)
    ensures Like(fill + str, fill + rest, ci)
  {
  }

  /** A mask that starts with an asterisk admits a string if the rest of the mask admits some tail of it. */
  lemma {:induction false} StarFirst(str: seq<Byte>, mask: seq<Byte>, ci: bool)
    requires mask != [] && mask[0] == STAR
    ensures InLanguage(str, mask, ci) <==> exists k :: 0 <= k <= |str| && InLanguage(str[k..], mask[1..], ci)
  {
    if InLanguage(str, mask, ci) {
      var fills :| Spells(str, mask, fills, ci);
      LikeTail(str, fills[0], Fill(mask[1..], fills[1..]), ci);
      assert Spells(str[|fills[0]|..], mask[1..], fills[1..], ci);
    }
    if k :| 0 <= k <= |str| && InLanguage(str[k..], mask[1..], ci) {
      var fills :| Spells(str[k..], mask[1..], fills, ci);
      var all := [str[..k]] + fills;
      assert all[1..] == fills;
      LikePad(str[..k], str[k..], Fill(mask[1..], fills), ci);
      assert str[..k] + str[k..] == str;
      assert Spells(str, mask, all, ci);
    }
  }

  /** Repeated asterisks are one. */
  lemma {:induction false} StarTwice(str: seq<Byte>, mask: seq<Byte>, ci: bool)
    requires |mask| >= 2 && mask[0] == STAR && mask[1] == STAR
    ensures InLanguage(str, mask, ci) <==> InLanguage(str, mask[1..], ci)
  {
    StarFirst(str, mask, ci);
    if k :| 0 <= k <= |str| && InLanguage(str[k..], mask[1..], ci) {
      StarFirst(str[k..], mask[1..], ci);
      var i :| 0 <= i <= |str[k..]| && InLanguage(str[k..][i..], mask[1..][1..], ci);
      assert str[k..][i..] == str[k + i..];
      StarFirst(str, mask[1..], ci);
    }
    if InLanguage(str, mask[1..], ci) {
      assert str[0..] == str;
    }
  }

  // ---------------------------------------------------------------------------------------------
  // Case
  // ---------------------------------------------------------------------------------------------

  /** A letter of ASCII in its other case; any other byte as it is. */
  function OtherCase(c: Byte): Byte {
    var ch := c as char;
    if 'A' <= ch <= 'Z' then c + ('a' as int - 'A' as int)
    else if 'a' <= ch <= 'z' then c - ('a' as int - 'A' as int)
    else c
  }

  /** Two strings that differ in the case of letters only. */
  predicate Recased(a: seq<Byte>, b: seq<Byte>) {
    |a| == |b| && forall i :: 0 <= i < |a| ==> a[i] == b[i] || a[i] == OtherCase(b[i])
  }

  lemma {:induction false} SameIsOtherCase(a: Byte, b: Byte)
    ensures Same(a, b, true) <==> a == b || a == OtherCase(b)
  {
  }

  lemma {:induction false} LikeIsRecased(a: seq<Byte>, b: seq<Byte>)
    ensures Like(a, b, true) <==> Recased(a, b)
    ensures Like(a, b, false) <==> a == b
  {
    hide Same, OtherCase;
    forall i | 0 <= i < |a| == |b|
      ensures Same(a[i], b[i], true) <==> a[i] == b[i] || a[i] == OtherCase(b[i])
      ensures Same(a[i], b[i], false) <==> a[i] == b[i]
    {
      SameIsOtherCase(a[i], b[i]);
      SameIsEqual(a[i], b[i]);
    }
  }

  lemma {:induction false} SameIsEqual(a: Byte, b: Byte)
    ensures Same(a, b, false) <==> a == b
  {
  }

  /**
   Matching that ignores case: a mask admits a string if and only if it admits, with regard to case, some
   string that differs from it in the case of letters only.
   */
  lemma {:induction false} IgnoresCase(str: seq<Byte>, mask: seq<Byte>)
    ensures InLanguage(str, mask, true) <==> exists t :: Recased(str, t) && InLanguage(t, mask, false)
  {
    hide Like, Recased;
    if InLanguage(str, mask, true) {
      var fills :| Spells(str, mask, fills, true);
      var t := Fill(mask, fills);
      LikeIsRecased(str, t);
      LikeIsRecased(t, t);
      assert Spells(t, mask, fills, false);
    }
    if t :| Recased(str, t) && InLanguage(t, mask, false) {
      var fills :| Spells(t, mask, fills, false);
      LikeIsRecased(t, Fill(mask, fills));
      LikeIsRecased(str, t);
      assert Spells(str, mask, fills, true);
    }
  }

  /** The case of the letters of a mask does not matter either. */
  lemma {:induction false} MaskIgnoresCase(str: seq<Byte>, mask: seq<Byte>, other: seq<Byte>)
    requires Recased(mask, other)
    ensures InLanguage(str, mask, true) <==> InLanguage(str, other, true)
    decreases |mask|
  {
    hide InLanguage, OtherCase;
    if mask == [] {
      assert mask == other;
    } else {
      RecasedFirst(mask, other);
      if mask[0] == STAR {
        StarFirst(str, mask, true);
        StarFirst(str, other, true);
        forall k | 0 <= k <= |str|
          ensures InLanguage(str[k..], mask[1..], true) <==> InLanguage(str[k..], other[1..], true)
        {
          MaskIgnoresCase(str[k..], mask[1..], other[1..]);
        }
      } else {
        LiteralFirst(str, mask, true);
        LiteralFirst(str, other, true);
        if str != [] {
          MaskIgnoresCase(str[1..], mask[1..], other[1..]);
        }
      }
    }
  }

  lemma {:induction false} RecasedFirst(mask: seq<Byte>, other: seq<Byte>)
    requires mask != [] && Recased(mask, other)
    ensures Recased(mask[1..], other[1..])
    ensures mask[0] == STAR <==> other[0] == STAR
    ensures forall c: Byte :: Same(c, mask[0], true) <==> Same(c, other[0], true)
  {
  }

  /** A mask without asterisks admits itself only; the asterisk is byte 42. */
  lemma {:induction false} PlainMask(str: seq<Byte>, mask: seq<Byte>)
    requires 42 !in mask
    ensures InLanguage(str, mask, false) <==> str == mask
    decreases |mask|
  {
    hide InLanguage;
    if mask == [] {
      EmptyMask(str, false);
    } else {
      LiteralFirst(str, mask, false);
      assert forall c :: c in mask[1..] ==> c in mask;
      if str != [] {
        PlainMask(str[1..], mask[1..]);
        assert str == [str[0]] + str[1..] && mask == [mask[0]] + mask[1..];
      }
    }
  }

  lemma {:induction false} LoneStar(str: seq<Byte>, mask: seq<Byte>, ci: bool)
    requires mask == [42]
    ensures InLanguage(str, mask, ci)
  {
    assert str[|str|..] == [] && mask[1..] == [];
    EmptyMask([], ci);
    StarFirst(str, mask, ci);
  }

  // ---------------------------------------------------------------------------------------------
  // Segments: the literal part of a mask up to the next asterisk
  // ---------------------------------------------------------------------------------------------

  predicate IsSegment(mask: seq<Byte>, n: nat) {
    && n <= |mask|
    && (forall i :: 0 <= i < n ==> mask[i] != STAR)
    && (n < |mask| ==> mask[n] == STAR)
  }

  /** A segment is matched by itself, the rest of the mask by the rest of the string. */
  lemma {:induction false} SegmentFirst(str: seq<Byte>, mask: seq<Byte>, n: nat, ci: bool)
    requires n <= |mask| && forall i :: 0 <= i < n ==> mask[i] != STAR
    ensures InLanguage(str, mask, ci) <==>
            n <= |str| && Like(str[..n], mask[..n], ci) && InLanguage(str[n..], mask[n..], ci)
    decreases n
  {
    if n == 0 {
      assert str[0..] == str && mask[0..] == mask;
    } else {
      LiteralFirst(str, mask, ci);
      if str != [] {
        SegmentFirst(str[1..], mask[1..], n - 1, ci);
        assert mask[1..][n - 1..] == mask[n..];
        if n <= |str| {
          assert str[1..][n - 1..] == str[n..];
          assert str[..n][1..] == str[1..][..n - 1] && mask[..n] == [mask[0]] + mask[1..][..n - 1];
          LikeHead(str[..n], mask[0], mask[1..][..n - 1], ci);
        }
      }
    }
  }

  // ---------------------------------------------------------------------------------------------
  // The algorithm
  // ---------------------------------------------------------------------------------------------

  /** The length of the first segment of the mask if the string starts with it, and zero otherwise. */
  method GetMatchLength(str: seq<Byte>, mask: seq<Byte>, ci: bool) returns (length: nat)
    requires mask != [] && mask[0] != STAR
    ensures length > 0 ==> IsSegment(mask, length) && length <= |str| && Like(str[..length], mask[..length], ci)
    ensures length == 0 ==> !InLanguage(str, mask, ci)
  {
    length := 0;
    while length < |mask| && mask[length] != STAR
      invariant length <= |mask| && length <= |str|
      invariant forall i :: 0 <= i < length ==> mask[i] != STAR
      invariant Like(str[..length], mask[..length], ci)
    {
      if length == |str| || !Same(str[length], mask[length], ci) {
        SegmentFirst(str, mask, length + 1, ci);
        if length < |str| {
          assert str[..length + 1][length] == str[length] && mask[..length + 1][length] == mask[length];
        }
        return 0;
      }
      length := length + 1;
    }
  }

  ghost predicate SomeTail(str: seq<Byte>, mask: seq<Byte>, ci: bool) {
    exists k :: 0 <= k <= |str| && InLanguage(str[k..], mask, ci)
  }

  lemma {:induction false} TailStep(str: seq<Byte>, mask: seq<Byte>, ci: bool)
    requires str != []
    ensures SomeTail(str, mask, ci) <==> InLanguage(str, mask, ci) || SomeTail(str[1..], mask, ci)
  {
    assert str[0..] == str;
    if k :| 0 <= k <= |str| && InLanguage(str[k..], mask, ci) {
      if k > 0 {
        assert str[1..][k - 1..] == str[k..];
      }
    }
    if k :| 0 <= k <= |str[1..]| && InLanguage(str[1..][k..], mask, ci) {
      assert str[1..][k..] == str[k + 1..];
    }
  }

  lemma {:induction false} NoTail(mask: seq<Byte>, ci: bool)
    requires mask != [] && mask[0] != STAR
    ensures !SomeTail([], mask, ci)
  {
    LiteralFirst([], mask, ci);
  }

  /** Finds the first tail of the string that starts with the first segment of the mask. */
  method FindSegment(str: seq<Byte>, mask: seq<Byte>, ci: bool) returns (substr: seq<Byte>, length: nat)
    requires str != [] && mask != [] && mask[0] != STAR
    ensures length == 0 ==> !SomeTail(str, mask, ci)
    ensures length > 0 ==>
              && IsSegment(mask, length)
              && |substr| <= |str| && substr == str[|str| - |substr|..]
              && length <= |substr| && Like(substr[..length], mask[..length], ci)
              && (SomeTail(str, mask, ci) <==> SomeTail(substr, mask, ci))
              && (InLanguage(str, mask, ci) ==> substr == str)
  {
    hide InLanguage, Like, SomeTail;
    substr := str;
    length := GetMatchLength(substr, mask, ci);
    while length == 0
      invariant 0 < |substr| <= |str| && substr == str[|str| - |substr|..]
      invariant length > 0 ==>
                  IsSegment(mask, length) && length <= |substr| && Like(substr[..length], mask[..length], ci)
      invariant length == 0 ==> !InLanguage(substr, mask, ci)
      invariant SomeTail(str, mask, ci) <==> SomeTail(substr, mask, ci)
      invariant InLanguage(str, mask, ci) ==> substr == str
      decreases |substr|, length == 0
    {
      TailStep(substr, mask, ci);
      substr := substr[1..];
      if substr == [] {
        NoTail(mask, ci);
        return;
      }
      length := GetMatchLength(substr, mask, ci);
    }
  }

  /** `matches`: the string is in the language of the mask. */
  method Matches(str: seq<Byte>, mask: seq<Byte>, ci: bool) returns (r: bool)
    ensures r <==> InLanguage(str, mask, ci)
    decreases |mask|
  {
    hide InLanguage, Like, SomeTail;
    if mask == [] {
      EmptyMask(str, ci);
      return str == [];
    } else if mask[0] == STAR {
      r := MatchesAfterStar(str, mask, ci);
    } else {
      var n := GetMatchLength(str, mask, ci);
      if n == 0 {
        return false;
      }
      SegmentFirst(str, mask, n, ci);
      r := Matches(str[n..], mask[n..], ci);
    }
  }

  method SkipStars(ghost str: seq<Byte>, whole: seq<Byte>, ghost ci: bool) returns (mask: seq<Byte>)
    requires whole != [] && whole[0] == STAR
    ensures |mask| < |whole| && (mask != [] ==> mask[0] != STAR)
    ensures InLanguage(str, whole, ci) <==> InLanguage(str, [STAR] + mask, ci)
  {
    hide InLanguage;
    mask := whole[1..];
    assert whole == [STAR] + mask;
    while mask != [] && mask[0] == STAR
      invariant |mask| < |whole|
      invariant InLanguage(str, whole, ci) <==> InLanguage(str, [STAR] + mask, ci)
    {
      StarTwice(str, [STAR] + mask, ci);
      assert ([STAR] + mask)[1..] == mask == [STAR] + mask[1..];
      mask := mask[1..];
    }
  }

  method MatchesAfterStar(whole: seq<Byte>, starred: seq<Byte>, ci: bool) returns (r: bool)
    requires starred != [] && starred[0] == STAR
    ensures r <==> InLanguage(whole, starred, ci)
    decreases |starred|, 0
  {
    var mask := SkipStars(whole, starred, ci);
    if mask == [] {
      LoneStar(whole, [STAR] + mask, ci);
      return true;
    }
    StarFirst(whole, [STAR] + mask, ci);
    assert ([STAR] + mask)[1..] == mask;
    assert InLanguage(whole, starred, ci) <==> SomeTail(whole, mask, ci);
    hide InLanguage, Like, SomeTail;
    var str := whole;
    while str != []
      invariant SomeTail(whole, mask, ci) <==> SomeTail(str, mask, ci)
      decreases |str|
    {
      var substr, length := FindSegment(str, mask, ci);
      if length == 0 {
        return false;
      }
      SegmentFirst(substr, mask, length, ci);
      r := Matches(substr[length..], mask[length..], ci);
      if r {
        TailStep(substr, mask, ci);
        return true;
      }
      TailStep(str, mask, ci);
      str := str[1..];
    }
    NoTail(mask, ci);
    return false;
  }

  class StringMatcher {
    const mask: seq<Byte>
    const ci: bool
    var numMatches: nat

    constructor (mask: seq<Byte>, ci: bool)
      ensures this.mask == mask && this.ci == ci && numMatches == 0
    {
      this.mask, this.ci, numMatches := mask, ci, 0;
    }

    /** Counts the matches, in 32 bits. */
    method MatchesMask(str: seq<Byte>) returns (r: bool)
      modifies this
      ensures r <==> InLanguage(str, mask, ci)
      ensures numMatches == if InLanguage(str, mask, ci) then U32(old(numMatches) + 1) else old(numMatches)
    {
      r := Matches(str, mask, ci);
      if r {
        numMatches := U32(numMatches + 1);
      }
    }
  }
}
