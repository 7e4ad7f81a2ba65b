/** Unsigned LEB128, the `varuint` integer format of section 5.2.2 of the WebAssembly Core
    Specification 1.0: seven data bits per byte, least significant group first, a byte whose
    high bit is clear ends the number.

    Both decoders of the program accumulate with JavaScript's `|=` and `<<`, so the
    accumulator is a 32-bit pattern (see module Int32). For an encoding of at most four
    bytes the result is the plain sum of the groups (`DecodeValue`); longer encodings wrap
    exactly as the 32-bit operators do. */
module Leb128 {
  import opened Wrappers
  import opened Int32

  type Byte = b: int | 0 <= b < 256

  /** `byte & 0x7F`. */
  function Low7(b: Byte): nat
  {
    b % 128
  }

  /** `(byte & 0x80) !== 0`: another byte follows. */
  predicate HasMore(b: Byte)
  {
    b >= 128
  }

  /** The accumulator after the first `n` bytes: group `k` is shifted left by `7 * k` (a shift
      count taken modulo 32) and OR-ed in. */
  function Acc(bs: seq<Byte>, n: nat): U32
    requires n <= |bs|
  {
    if n == 0 then 0 else Or(Acc(bs, n - 1), Shl(Low7(bs[n - 1]), 7 * (n - 1)))
  }

  /** The position of the first byte whose high bit is clear, if any. */
  function FirstStop(bs: seq<Byte>): (t: Option<nat>)
    ensures t.Some? ==> t.value < |bs| && !HasMore(bs[t.value])
  {
    if bs == [] then None
    else if !HasMore(bs[0]) then Some(0)
    else match FirstStop(bs[1..])
      case None => None
      case Some(t) => Some(t + 1)
  }

  /** Every byte before the first terminator has its high bit set, and there is no
      terminator exactly when every byte has it set. */
  lemma {:induction false} FirstStopSpec(bs: seq<Byte>)
    ensures FirstStop(bs).Some? ==> forall k :: 0 <= k < FirstStop(bs).value ==> HasMore(bs[k])
    ensures FirstStop(bs).None? <==> forall k :: 0 <= k < |bs| ==> HasMore(bs[k])
  {
    if bs != [] && HasMore(bs[0]) {
      var tail := bs[1..];
      FirstStopSpec(tail);
      assert forall k :: 1 <= k < |bs| ==> bs[k] == tail[k - 1];
      if FirstStop(tail).None? {
        assert forall k :: 0 <= k < |bs| ==> HasMore(bs[k]) by {
          forall k | 0 <= k < |bs|
            ensures HasMore(bs[k])
          {
            if k > 0 {
              assert HasMore(tail[k - 1]);
            }
          }
        }
      } else {
        var t := FirstStop(tail).value;
        assert !HasMore(bs[t + 1]);
        forall k | 0 <= k < t + 1
          ensures HasMore(bs[k])
        {
          if k > 0 {
            assert HasMore(tail[k - 1]);
          }
        }
      }
    }
  }

  /** The first terminator is determined by the bytes up to it. */
  lemma FirstStopIs(bs: seq<Byte>, t: nat)
    requires t < |bs| && !HasMore(bs[t])
    requires forall k :: 0 <= k < t ==> HasMore(bs[k])
    ensures FirstStop(bs) == Some(t)
  {
    FirstStopSpec(bs);
    var f := FirstStop(bs);
    assert f.Some?;
    assert f.value >= t;
    assert f.value <= t;
  }

  datatype LebError = IncompleteSequence

  /** What `decodeLEB128FromArray` returns or throws for a whole array. */
  function Decode(bs: seq<Byte>): Result<int, LebError>
  {
    match FirstStop(bs)
    case None => Err(IncompleteSequence)
    case Some(t) => Ok(ToSigned(Acc(bs, t + 1)))
  }

  /** Decoding fails exactly when no byte ends the number. */
  lemma DecodeFails(bs: seq<Byte>)
    ensures Decode(bs).Err? <==> forall k :: 0 <= k < |bs| ==> HasMore(bs[k])
  {
    FirstStopSpec(bs);
  }

  /** Reference value of a byte string read as base-128 digits, least significant first. */
  function Value(bs: seq<Byte>): nat
  {
    if bs == [] then 0 else Low7(bs[0]) + 128 * Value(bs[1..])
  }

  /** The canonical encoding of `v`, an independent partner of the decoders. */
  function Encode(v: nat): (r: seq<Byte>)
    ensures |r| >= 1
  {
    if v < 128 then [v] else [v % 128 + 128] + Encode(v / 128)
  }

  /** The encoding of `v` ends at its last byte and nowhere before, and its base-128 value
      is `v`. */
  lemma {:induction false} EncodeShape(v: nat)
    ensures !HasMore(Encode(v)[|Encode(v)| - 1])
    ensures forall k :: 0 <= k < |Encode(v)| - 1 ==> HasMore(Encode(v)[k])
    ensures Value(Encode(v)) == v
  {
    if v >= 128 {
      var e, t := Encode(v), Encode(v / 128);
      EncodeShape(v / 128);
      assert e == [v % 128 + 128] + t;
      assert e[1..] == t;
      forall k | 0 <= k < |e| - 1
        ensures HasMore(e[k])
      {
        if k > 0 {
          assert e[k] == t[k - 1];
        }
      }
    }
  }

  lemma {:induction false} ValueSnoc(s: seq<Byte>, b: Byte)
    ensures Value(s + [b]) == Value(s) + Low7(b) * Pow2(7 * |s|)
  {
    if s != [] {
      var g, p, v := Low7(b), Pow2(7 * (|s| - 1)), Value(s[1..]);
      assert (s + [b])[1..] == s[1..] + [b];
      ValueSnoc(s[1..], b);
      assert Value(s + [b]) == Low7(s[0]) + 128 * (v + g * p);
      Pow2Add(7, 7 * (|s| - 1));
      assert Pow2(7) == 128;
      assert Pow2(7 * |s|) == 128 * p;
      ScaleGroup(v, g, p);
    } else {
      assert [] + [b] == [b];
    }
  }

  lemma ScaleGroup(v: nat, g: nat, p: nat)
    ensures 128 * (v + g * p) == 128 * v + g * (128 * p)
  {
  }

  lemma GroupBelowNext(g: nat, k: nat)
    requires g < 128
    ensures g * Pow2(7 * k) < Pow2(7 * k + 7)
  {
    Pow2Add(7 * k, 7);
    assert Pow2(7) == 128;
  }

  /** Among the first four bytes a shifted group does not wrap. */
  lemma ShlNoWrap(g: nat, k: nat)
    requires k < 4 && g < 128
    ensures Shl(g, 7 * k) == g * Pow2(7 * k)
  {
    GroupBelowNext(g, k);
    Pow2Monotone(7 * k + 7, 32);
    Pow2Of32();
    assert (7 * k) % 32 == 7 * k;
    DoubledNoWrap(g, 7 * k);
  }

  /** A group below 128 placed above `acc < 2^(7k)` stays below `2^(7k+7)`. */
  lemma GroupFits(acc: nat, g: nat, p: nat)
    requires acc < p && g < 128
    ensures acc + g * p < 128 * p
  {
    assert g * p <= 127 * p;
  }

  /** One decoding step among the first four bytes: the shifted group lands above the bits
      already read, so the OR is an addition. */
  lemma OrShiftStep(acc: U32, g: nat, k: nat)
    requires k < 4 && acc < Pow2(7 * k) && g < 128
    ensures Or(acc, Shl(g, 7 * k)) == acc + g * Pow2(7 * k) < Pow2(7 * k + 7)
  {
    var p := Pow2(7 * k);
    GroupBelowNext(g, k);
    ShlNoWrap(g, k);
    Pow2Monotone(7 * k + 7, 32);
    Pow2Of32();
    OrDisjoint(acc, g, 7 * k, Width);
    assert Or(acc, Shl(g, 7 * k)) == BitOr(acc, g * p, Width);
    Pow2Add(7 * k, 7);
    assert Pow2(7) == 128;
    assert Pow2(7 * k + 7) == p * 128;
    GroupFits(acc, g, p);
  }

  /** For at most four bytes the 32-bit accumulator never wraps and equals the reference
      value. */
  lemma {:induction false} AccIsValue(bs: seq<Byte>, n: nat)
    requires n <= |bs| && n <= 4
    ensures Acc(bs, n) == Value(bs[..n]) < Pow2(7 * n)
  {
    if n > 0 {
      var k := n - 1;
      AccIsValue(bs, k);
      assert bs[..n] == bs[..k] + [bs[k]];
      ValueSnoc(bs[..k], bs[k]);
      OrShiftStep(Acc(bs, k), Low7(bs[k]), k);
    }
  }

  lemma {:induction false} AccPrefix(a: seq<Byte>, b: seq<Byte>, n: nat)
    requires n <= |a|
    ensures Acc(a + b, n) == Acc(a, n)
  {
    if n > 0 {
      AccPrefix(a, b, n - 1);
      assert (a + b)[n - 1] == a[n - 1];
    }
  }

  /** The accumulator over the first `n` bytes depends on those bytes only. */
  lemma AccOfHead(bs: seq<Byte>, rest: seq<Byte>, n: nat)
    requires n <= |bs|
    ensures Acc(bs[..n] + rest, n) == Acc(bs, n)
  {
    var head := bs[..n];
    AccPrefix(head, rest, n);
    assert bs == head + bs[n..];
    AccPrefix(head, bs[n..], n);
  }

  lemma FirstStopOfHead(bs: seq<Byte>, rest: seq<Byte>, t: nat)
    requires FirstStop(bs) == Some(t)
    ensures FirstStop(bs[..t + 1] + rest) == Some(t)
  {
    var s := bs[..t + 1] + rest;
    FirstStopSpec(bs);
    assert forall k :: 0 <= k <= t ==> s[k] == bs[k];
    FirstStopIs(s, t);
  }

  /** Decoding reads up to and including the first byte with a clear high bit; the bytes
      after it never change the result. */
  lemma DecodeStopsAtTerminator(bs: seq<Byte>, rest: seq<Byte>)
    requires FirstStop(bs).Some?
    ensures var t := FirstStop(bs).value; Decode(bs[..t + 1] + rest) == Decode(bs)
  {
    var t := FirstStop(bs).value;
    FirstStopOfHead(bs, rest, t);
    AccOfHead(bs, rest, t + 1);
  }

  /** A single byte below 0x80 decodes to itself, whatever follows it. */
  lemma DecodeSingleByte(b: Byte, rest: seq<Byte>)
    requires b < 128
    ensures Decode([b] + rest) == Ok(b)
  {
    var s := [b] + rest;
    FirstStopIs(s, 0);
    DecodeValue(s);
    assert s[..1] == [b];
    assert Value([b]) == b;
  }

  /** When the terminator is among the first four bytes the decoded number is the sum of
      `(b_k & 0x7F) << 7k` over the bytes read. */
  lemma DecodeValue(bs: seq<Byte>)
    requires FirstStop(bs).Some? && FirstStop(bs).value < 4
    ensures Decode(bs) == Ok(Value(bs[..FirstStop(bs).value + 1]))
  {
    var t := FirstStop(bs).value;
    AccIsValue(bs, t + 1);
    Pow2BelowSignBit(7 * (t + 1));
  }

  /** A number of at most 28 bits reads back unchanged as a signed 32-bit value. */
  lemma Pow2BelowSignBit(n: nat)
    requires n <= 28
    ensures Pow2(n) < TwoTo31
  {
    Pow2Monotone(n, 28);
    Pow2Add(28, 3);
    assert Pow2(3) == 8;
    Pow2Of32();
    assert Pow2(32) == 2 * Pow2(31);
  }

  lemma {:induction false} EncodeLength(v: nat, k: nat)
    requires k >= 1 && v < Pow2(7 * k)
    ensures |Encode(v)| <= k
  {
    if v >= 128 {
      assert Pow2(7) == 128;
      Pow2Add(7, 7 * (k - 1));
      EncodeLength(v / 128, k - 1);
    }
  }

  /** The encoding of a value below 2^28 has at most four bytes and decodes back to it,
      whatever follows. */
  lemma DecodeEncoded(v: nat, rest: seq<Byte>)
    requires v < Pow2(28)
    ensures |Encode(v)| <= 4
    ensures FirstStop(Encode(v) + rest) == Some(|Encode(v)| - 1)
    ensures Decode(Encode(v) + rest) == Ok(v)
  {
    var e := Encode(v);
    EncodeShape(v);
    EncodeLength(v, 4);
    var s := e + rest;
    assert forall k :: 0 <= k < |e| ==> s[k] == e[k];
    FirstStopIs(s, |e| - 1);
    assert s[..|e|] == e;
    DecodeValue(s);
  }

  /** A strict prefix of an encoding holds no terminator. */
  lemma EncodedPrefixIncomplete(v: nat, k: nat)
    requires k < |Encode(v)|
    ensures Decode(Encode(v)[..k]) == Err(IncompleteSequence)
  {
    var e := Encode(v);
    EncodeShape(v);
    assert forall j :: 0 <= j < k ==> e[..k][j] == e[j];
    DecodeFails(e[..k]);
  }

  /** Decoding inverts encoding for every value below 2^28 (at most four bytes), whatever
      follows the encoding; a strict prefix of an encoding is an incomplete sequence. */
  lemma RoundTrip(v: nat, rest: seq<Byte>)
    requires v < Pow2(28)
    ensures Decode(Encode(v) + rest) == Ok(v)
    ensures forall k :: 0 <= k < |Encode(v)| ==> Decode(Encode(v)[..k]) == Err(IncompleteSequence)
  {
    DecodeEncoded(v, rest);
    forall k | 0 <= k < |Encode(v)|
      ensures Decode(Encode(v)[..k]) == Err(IncompleteSequence)
    {
      EncodedPrefixIncomplete(v, k);
    }
  }

  /** `arr[k]` where a position past the end reads as 0 (`undefined & m` is 0 in
      JavaScript). */
  function ByteOr0(arr: seq<Byte>, k: nat): Byte
  {
    if k < |arr| then arr[k] else 0
  }

  /** What `readVarUint32(arr)` returns: the number of bytes read and the decoded number. A
      missing byte reads as 0 and so ends the number. */
  function ReadVarUint(arr: seq<Byte>): (r: (nat, int))
    ensures 1 <= r.0 <= |arr| + 1
    ensures r.0 <= |arr| ==> !HasMore(arr[r.0 - 1])
  {
    var padded := arr + [0];
    FirstStopSpec(padded);
    assert !HasMore(padded[|arr|]);
    var t := FirstStop(padded).value;
    (t + 1, ToSigned(Acc(padded, t + 1)))
  }

  /** The cursor decoder reads past bytes with the high bit set only. */
  lemma ReadVarUintReadsContinuations(arr: seq<Byte>)
    ensures forall k :: 0 <= k < ReadVarUint(arr).0 - 1 ==> HasMore(arr[k])
  {
    var padded := arr + [0];
    FirstStopSpec(padded);
    assert forall k :: 0 <= k < |arr| ==> padded[k] == arr[k];
  }

  /** Bytes after the first terminator do not move it. */
  lemma {:induction false} FirstStopAppend(bs: seq<Byte>, rest: seq<Byte>)
    requires FirstStop(bs).Some?
    ensures FirstStop(bs + rest) == FirstStop(bs)
  {
    assert (bs + rest)[0] == bs[0];
    if HasMore(bs[0]) {
      assert (bs + rest)[1..] == bs[1..] + rest;
      FirstStopAppend(bs[1..], rest);
    }
  }

  /** Without a terminator, an appended zero byte is the first one. */
  lemma {:induction false} FirstStopPastEnd(bs: seq<Byte>)
    ensures FirstStop(bs).None? ==> FirstStop(bs + [0]) == Some(|bs|)
  {
    if bs != [] && FirstStop(bs).None? {
      assert (bs + [0])[0] == bs[0];
      assert (bs + [0])[1..] == bs[1..] + [0];
      FirstStopPastEnd(bs[1..]);
    }
  }

  lemma ReadVarUintAgreesComplete(arr: seq<Byte>)
    requires FirstStop(arr).Some?
    ensures ReadVarUint(arr) == (FirstStop(arr).value + 1, Decode(arr).value)
  {
    FirstStopAppend(arr, [0]);
    AccPrefix(arr, [0], FirstStop(arr).value + 1);
  }

  lemma ReadVarUintAgreesIncomplete(arr: seq<Byte>)
    requires FirstStop(arr).None?
    ensures ReadVarUint(arr) == (|arr| + 1, ToSigned(Acc(arr, |arr|)))
  {
    var padded := arr + [0];
    FirstStopPastEnd(arr);
    AccPrefix(arr, [0], |arr|);
    var a := Acc(arr, |arr|);
    assert padded[|arr|] == 0;
    assert Acc(padded, |arr| + 1) == Or(a, Shl(Low7(0), 7 * |arr|));
    ShlZero(7 * |arr|);
    OrZeroRight(a);
  }

  /** The cursor decoder agrees with the whole-array decoder when the array holds a
      terminator, and otherwise reads one position past the end. */
  lemma ReadVarUintAgrees(arr: seq<Byte>)
    ensures Decode(arr).Ok? ==> ReadVarUint(arr) == (FirstStop(arr).value + 1, Decode(arr).value)
    ensures Decode(arr).Err? ==> ReadVarUint(arr) == (|arr| + 1, ToSigned(Acc(arr, |arr|)))
  {
    if FirstStop(arr).Some? {
      ReadVarUintAgreesComplete(arr);
    } else {
      ReadVarUintAgreesIncomplete(arr);
    }
  }

  /** The cursor decoder reads an encoding of a value below 2^28 back, consuming exactly its
      bytes. */
  lemma ReadVarUintRoundTrip(v: nat, rest: seq<Byte>)
    requires v < Pow2(28)
    ensures ReadVarUint(Encode(v) + rest) == (|Encode(v)|, v)
  {
    DecodeEncoded(v, rest);
    ReadsDecoded(Encode(v) + rest, |Encode(v)|, v);
  }

  lemma ReadsDecoded(s: seq<Byte>, n: nat, v: int)
    requires n >= 1
    requires FirstStop(s) == Some(n - 1)
    requires Decode(s) == Ok(v)
    ensures ReadVarUint(s) == (n, v)
  {
    ReadVarUintAgreesComplete(s);
  }

}
