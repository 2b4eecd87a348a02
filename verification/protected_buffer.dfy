/** The growable request buffer whose replaced allocations are erased. */
module ProtectedBuffers {
  import opened Framing

  const MAX_JSON_REQUEST_BYTES := 8_388_608

  /** `next_power_of_two`: doubles `power` until it reaches `n`. */
  function PowerFrom(power: nat, n: nat): (p: nat)
    requires power > 0
    ensures p >= n && p >= power && (p == power || p < 2 * n)
    decreases if power < n then n - power else 0
  {
    if power >= n then power else PowerFrom(2 * power, n)
  }

  function NextPowerOfTwo(n: nat): (p: nat)
    ensures p >= n && p > 0
  {
    PowerFrom(1, n)
  }

  ghost predicate IsPower(n: nat) {
    exists k: nat :: Power(k) == n
  }

  ghost function Power(k: nat): nat {
    if k == 0 then 1 else 2 * Power(k - 1)
  }

  lemma {:induction false} PowerFromIsPower(k: nat, n: nat)
    requires Power(k) > 0
    ensures IsPower(PowerFrom(Power(k), n))
    decreases if Power(k) < n then n - Power(k) else 0
  {
    if Power(k) < n {
      assert Power(k + 1) == 2 * Power(k);
      PowerFromIsPower(k + 1, n);
    } else {
      assert Power(k) == PowerFrom(Power(k), n);
    }
  }

  lemma {:induction false} PowersDouble(j: nat, k: nat)
    requires Power(j) < Power(k)
    ensures 2 * Power(j) <= Power(k)
    decreases j + k
  {
    if k > 0 && j > 0 {
      PowersDouble(j - 1, k - 1);
    } else if k > 0 {
      PowerPositive(k - 1);
    } else {
      PowerPositive(j);
    }
  }

  lemma {:induction false} PowerPositive(k: nat)
    ensures Power(k) >= 1
  {
    if k > 0 {
      PowerPositive(k - 1);
    }
  }

  lemma {:induction false} AlignedWith(k: nat, n: nat, m: nat)
    requires n <= Power(m) && k <= m && Power(k) > 0
    ensures PowerFrom(Power(k), n) <= Power(m)
    decreases m - k
  {
    PowersGrow(k, m);
    if Power(k) < n {
      PowerPositive(k + 1);
      AlignedWith(k + 1, n, m);
    }
  }

  lemma {:induction false} PowersGrow(k: nat, m: nat)
    requires k <= m
    ensures Power(k) <= Power(m)
    decreases m - k
  {
    if k < m {
      PowersGrow(k + 1, m);
    }
  }

  lemma LimitIsAPower()
    ensures Power(23) == MAX_JSON_REQUEST_BYTES
  {
    assert Power(4) == 16 && Power(8) == 16 * Power(4) && Power(12) == 16 * Power(8);
    assert Power(16) == 16 * Power(12) && Power(20) == 16 * Power(16);
    assert Power(23) == 8 * Power(20);
  }

  /** The capacity chosen for a required length: a power of two less than twice that length, and
      never beyond the limit. */
  lemma ChosenCapacity(required: nat)
    requires 0 < required <= MAX_JSON_REQUEST_BYTES
    ensures required <= NextPowerOfTwo(required) <= MAX_JSON_REQUEST_BYTES
    ensures NextPowerOfTwo(required) < 2 * required && IsPower(NextPowerOfTwo(required))
  {
    LimitIsAPower();
    assert Power(0) == 1;
    AlignedWith(0, required, 23);
    PowerFromIsPower(0, required);
  }

  /** A power of two that outgrows another one at least doubles it. */
  lemma GrowthDoubles(before: nat, after: nat)
    requires (before == 0 || IsPower(before)) && IsPower(after) && before < after
    ensures 2 * before <= after
  {
    var k: nat :| Power(k) == after;
    if before != 0 {
      var j: nat :| Power(j) == before;
      PowersDouble(j, k);
    }
  }

  predicate Erased(a: array<u8>)
    reads a
  {
    forall i | 0 <= i < a.Length :: a[i] == 0
  }

  class ProtectedJsonWriter {
    var buffer: array<u8>
    var len: nat
    ghost var replaced: set<array<u8>>
    ghost var moved: nat

    /** The capacity is 0 or a power of two less than twice the length; growth has moved at most
        one capacity of bytes; every replaced allocation is erased. */
    ghost predicate Valid()
      reads this, buffer, replaced
    {
      && len <= buffer.Length <= MAX_JSON_REQUEST_BYTES
      && (buffer.Length == 0 || (IsPower(buffer.Length) && buffer.Length < 2 * len))
      && moved <= buffer.Length
      && buffer !in replaced && forall a | a in replaced :: Erased(a)
    }

    function Contents(): Bytes
      reads this, buffer
      requires len <= buffer.Length
    {
      buffer[..len]
    }

    constructor ()
      ensures Valid() && Contents() == [] && moved == 0 && replaced == {} && fresh(buffer)
    {
      buffer := new u8[0];
      len, replaced, moved := 0, {}, 0;
    }

    /** Appends bytes, or refuses what would pass the limit and changes nothing. */
    method Write(bytes: Bytes) returns (accepted: bool)
      requires Valid()
      modifies this, buffer
      ensures Valid()
      ensures accepted <==> |old(Contents())| + |bytes| <= MAX_JSON_REQUEST_BYTES
      ensures Contents() == if accepted then old(Contents()) + bytes else old(Contents())
      ensures !accepted ==> buffer == old(buffer) && len == old(len) && moved == old(moved) && replaced == old(replaced)
      ensures buffer == old(buffer) || (fresh(buffer) && replaced == old(replaced) + {old(buffer)})
      ensures buffer == old(buffer) ==> replaced == old(replaced)
      ensures moved == old(moved) + if buffer == old(buffer) then 0 else |old(Contents())|
    {
      var required := len + |bytes|;
      if required > MAX_JSON_REQUEST_BYTES {
        return false;
      }
      if required > buffer.Length {
        Grow(required);
      }
      Append(bytes);
      return true;
    }

    /** Copies into a larger allocation and erases the one it replaces. */
    method Grow(required: nat)
      requires Valid() && buffer.Length < required <= MAX_JSON_REQUEST_BYTES
      modifies this, buffer
      ensures fresh(buffer) && len == old(len) && required <= buffer.Length <= MAX_JSON_REQUEST_BYTES
      ensures IsPower(buffer.Length) && buffer.Length < 2 * required
      ensures Contents() == old(Contents())
      ensures moved == old(moved) + len && moved <= buffer.Length
      ensures replaced == old(replaced) + {old(buffer)} && forall a | a in replaced :: Erased(a)
    {
      ChosenCapacity(required);
      GrowthDoubles(buffer.Length, NextPowerOfTwo(required));
      var power := NextPowerOfTwo(required);
      var capacity := if power < MAX_JSON_REQUEST_BYTES then power else MAX_JSON_REQUEST_BYTES;
      var replacement := new u8[capacity];
      for i := 0 to len
        invariant len <= buffer.Length && unchanged(this) && buffer[..] == old(buffer[..])
        invariant replacement[..i] == buffer[..i]
      {
        replacement[i] := buffer[i];
      }
      ghost var before := buffer;
      Erase(buffer);
      buffer := replacement;
      moved := moved + len;
      replaced := replaced + {before};
    }

    method Append(bytes: Bytes)
      requires len + |bytes| <= buffer.Length
      modifies this`len, buffer
      ensures buffer == old(buffer) && len == old(len) + |bytes| && Contents() == old(Contents()) + bytes
    {
      var start := len;
      for i := 0 to |bytes|
        invariant buffer[..start] == old(buffer[..len]) && buffer[start..start + i] == bytes[..i] && len == start
      {
        buffer[start + i] := bytes[i];
      }
      len := len + |bytes|;
      assert buffer[..len] == buffer[..start] + buffer[start..len];
    }

    /** Releasing the body erases the allocation that is left. */
    method Release()
      requires Valid()
      modifies this, buffer
      ensures Erased(buffer) && forall a | a in replaced :: Erased(a)
      ensures buffer == old(buffer) && replaced == old(replaced) && len == 0
    {
      Erase(buffer);
      len := 0;
    }
  }

  method Erase(a: array<u8>)
    modifies a
    ensures Erased(a)
  {
    for i := 0 to a.Length
      invariant forall k | 0 <= k < i :: a[k] == 0
    {
      a[i] := 0;
    }
  }

  function Flatten(chunks: seq<Bytes>): Bytes {
    if chunks == [] then [] else Flatten(chunks[..|chunks| - 1]) + chunks[|chunks| - 1]
  }

  lemma {:induction false} FlattenGrows(chunks: seq<Bytes>, i: nat)
    requires i <= |chunks|
    ensures |Flatten(chunks[..i])| <= |Flatten(chunks)|
  {
    if i < |chunks| {
      FlattenGrows(chunks[..|chunks| - 1], i);
      assert chunks[..|chunks| - 1][..i] == chunks[..i];
    } else {
      assert chunks[..i] == chunks;
    }
  }

  /** Serialises a value into a fresh body, chunk by chunk.  Growth moves fewer than twice the
      bytes of the final body; a failed body is erased. */
  method SerialiseJson(chunks: seq<Bytes>) returns (ok: bool, writer: ProtectedJsonWriter)
    ensures fresh(writer) && fresh(writer.buffer) && writer.len <= writer.buffer.Length
    ensures ok <==> |Flatten(chunks)| <= MAX_JSON_REQUEST_BYTES
    ensures ok ==> writer.Contents() == Flatten(chunks)
    ensures ok && Flatten(chunks) != [] ==> writer.moved < 2 * |Flatten(chunks)|
    ensures !ok ==> Erased(writer.buffer)
    ensures forall a | a in writer.replaced :: Erased(a)
  {
    writer := new ProtectedJsonWriter();
    assert chunks[..0] == [];
    for i := 0 to |chunks|
      invariant fresh(writer) && fresh(writer.buffer) && writer.Valid() && writer.Contents() == Flatten(chunks[..i])
    {
      var accepted := writer.Write(chunks[i]);
      assert chunks[..i + 1][..i] == chunks[..i];
      if !accepted {
        FlattenGrows(chunks, i + 1);
        writer.Release();
        return false, writer;
      }
    }
    assert chunks[..|chunks|] == chunks;
    return true, writer;
  }
}
