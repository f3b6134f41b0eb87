/** `PayloadListChunkBuilder`: a list of strings in a payload, in a buffer that grows by 32-bit guesses. */
module PayloadLists {
  import opened Bytes
  import opened Chunks
  import opened Division
  import Builders

  /** The first allocation for `num` strings of some average length, at most what 32 bits can say. */
  function InitialSize(minGuess: nat, maxGuess: nat, averageLength: nat): (size: nat)
    requires minGuess <= maxGuess <= UINT_MAX || (maxGuess == 0 && minGuess <= UINT_MAX)
    requires averageLength <= UINT_MAX
    ensures size <= UINT_MAX
  {
    var low := if minGuess == 0 then 1 else minGuess;
    var high := if maxGuess == 0 then (if low == 1 then 64 else low) else maxGuess;
    var average := U32((if averageLength == 0 then 16 else averageLength) + 1);
    var num := if high > low then U32(low + U32((high - low) * 3) / 4) else high;
    Min(num * average, UINT_MAX)
  }

  /** How many more strings are expected. */
  function FurtherStrings(count: nat): (n: nat)
    ensures count + 1 <= 5 * n
  {
    if count < 4 then 2 else if count < 32 then 8 else count / 4
  }

  /** The extra space that `add` asks for before any check; each product and quotient is cut to 32 bits. */
  function GrowthGuess(used: nat, count: nat, length: nat): (extra: nat)
    requires count < UINT_MAX
    ensures extra >= length
  {
    var average := U32((used + length) / (count + 1));
    var extra := U32(FurtherStrings(count) * average);
    if extra < length then length else extra
  }

  /**
   The buffer grows in proportion to what it holds, so that it is not moved for every string: unless the
   product of the guess wraps around, by at least a fifth of the bytes beyond one for every string.
   */
  lemma {:induction false} GrowthIsProportional(used: nat, count: nat, length: nat)
    requires count < UINT_MAX && used + length <= UINT_MAX
    requires FurtherStrings(count) * ((used + length) / (count + 1)) <= UINT_MAX
    ensures 5 * GrowthGuess(used, count, length) >= used + length - count
  {
    var size, average := used + length, (used + length) / (count + 1);
    hide FurtherStrings;
    DivideBounds(size, count + 1);
    AtLeastProduct(used, count, length, average);
    ProductsCompare(count + 1, FurtherStrings(count), average, size);
  }

  lemma {:induction false} AtLeastProduct(used: nat, count: nat, length: nat, average: nat)
    requires count < UINT_MAX && average == (used + length) / (count + 1) <= UINT_MAX
    requires FurtherStrings(count) * average <= UINT_MAX
    ensures GrowthGuess(used, count, length) >= FurtherStrings(count) * average
  {
    hide FurtherStrings;
  }

  lemma {:induction false} ProductsCompare(a: nat, b: nat, c: nat, size: nat)
    requires a <= 5 * b && size < a * c + a
    ensures size - (a - 1) <= 5 * (b * c)
  {
    assert 5 * (b * c) - a * c == (5 * b - a) * c >= 0;
  }

  class PayloadListBuilder {
    var buffer: array<Byte>
    var used: nat
    var count: nat
    ghost var items: seq<seq<Byte>>

    ghost predicate Valid()
      reads this, buffer
    {
      && used <= buffer.Length <= UINT_MAX
      && count == |items|
      && (forall i :: 0 <= i < |items| ==> |items[i]| <= UINT_MAX)
      && buffer[..used] == EncodeElements(items)
    }

    constructor (minGuess: nat, maxGuess: nat, averageLength: nat)
      requires minGuess <= maxGuess <= UINT_MAX || (maxGuess == 0 && minGuess <= UINT_MAX)
      requires averageLength <= UINT_MAX
      ensures Valid() && fresh(buffer) && items == []
    {
      buffer := new Byte[InitialSize(minGuess, maxGuess, averageLength)](_ => 0);
      used, count, items := 0, 0, [];
    }

    /** Grows the buffer and keeps what it holds. */
    method Reallocate(size: nat)
      requires used <= buffer.Length < size <= UINT_MAX
      modifies this`buffer
      ensures fresh(buffer) && buffer.Length == size && buffer[..used] == old(buffer[..used])
    {
      var larger := new Byte[size](_ => 0);
      var k := 0;
      while k < used
        invariant k <= used && buffer == old(buffer) && buffer[..] == old(buffer[..])
        invariant larger[..k] == buffer[..k]
      {
        larger[k] := buffer[k];
        k := k + 1;
      }
      buffer := larger;
    }

    /**
     `add`: fails exactly when the string cannot fit 32-bit sizes, however badly the growth guess has
     wrapped around, and never writes past the allocation.
     */
    method Add(s: seq<Byte>) returns (ok: bool)
      requires Valid() && MeasureElement(|s|) <= UINT_MAX && count < UINT_MAX
      modifies this, buffer
      ensures Valid() && (buffer == old(buffer) || fresh(buffer))
      ensures ok <==> old(used) + MeasureElement(|s|) <= UINT_MAX
      ensures items == (if ok then old(items) + [s] else old(items))
      ensures used == (if ok then old(used) + MeasureElement(|s|) else old(used))
    {
      var length := MeasureElement(|s|);
      if used + length > buffer.Length {
        var extra := GrowthGuess(used, count, length);
        if buffer.Length + extra > UINT_MAX {
          extra := UINT_MAX - buffer.Length;
          if extra + (buffer.Length - used) < length {
            return false;
          }
        }
        Reallocate(buffer.Length + extra);
      }
      AppendElement(items, s);
      hide EncodeElement, EncodeElements;
      used := Builders.PutString(buffer, used, s);
      count := count + 1;
      items := items + [s];
      return true;
    }

    /** What the strings read back as: `ListChunk::get_string` repeated `count` times. */
    lemma ReadsBack()
      requires Valid()
      ensures DecodeElements(buffer[..used], count) == Elements(items, used)
    {
      ElementsReadBack(items, []);
      assert EncodeElements(items) + [] == EncodeElements(items);
    }
  }

  lemma {:induction false} AppendElement(ss: seq<seq<Byte>>, s: seq<Byte>)
    ensures EncodeElements(ss + [s]) == EncodeElements(ss) + EncodeElement(s)
  {
    var all := ss + [s];
    Builders.ElementsSplit(all, |ss|);
    assert all[..|ss| + 1] == all && all[..|ss|] == ss;
  }
}
