/** Locating the petal counter table in the client binary (`getInventoryBaseAddress` of
    getPetalCount.js, getMobCount.js and script/KilledThisRun.js).

    The scan looks, at every start position, for the instruction sequence
    `i32.const 1; i32.store8 align=0 offset=0; i32.const <addr>; i32.const 5;
    i32.store align=2 offset=0` (opcodes 0x41, 0x3A and 0x36 of sections 5.4.4 and 5.4.5 of the
    WebAssembly Core Specification 1.0) and records `addr >> 2`, the word index of the byte
    address. The operand of the second `i32.const` is read with the unsigned decoder, although
    the format encodes it as signed LEB128; the two agree on non-negative values. */
module WasmScan {
  import opened Wrappers
  import opened Int32
  import opened Leb128

  /** `readVarUint32`: a do-while over `idx` that ORs each group into `res`; a byte past the
      end reads as 0 and so ends the loop. */
  method ReadVarUint32(arr: seq<Byte>) returns (n: nat, v: int)
    ensures (n, v) == ReadVarUint(arr)
  {
    ghost var padded := arr + [0];
    assert padded[|arr|] == 0;
    var idx: nat := 0;
    var res: U32 := 0;
    var more := true;
    while more
      invariant idx <= |arr| + 1
      invariant res == Acc(padded, idx)
      invariant more ==> idx <= |arr| && forall k :: 0 <= k < idx ==> HasMore(padded[k])
      invariant !more ==> idx >= 1 && FirstStop(padded) == Some(idx - 1)
      decreases |arr| + 1 - idx, more
    {
      var b := ByteOr0(arr, idx);
      assert b == padded[idx];
      res := Or(res, Shl(Low7(b), 7 * idx));
      more := HasMore(b);
      if !more {
        FirstStopIs(padded, idx);
      }
      idx := idx + 1;
    }
    n, v := idx, ToSigned(res);
  }

  /** `i32.const 1; i32.store8 align=0 offset=0; i32.const`: the bytes before the operand. */
  const Prologue: seq<Byte> := [0x41, 0x01, 0x3A, 0x00, 0x00, 0x41]
  /** `i32.const 5; i32.store align=2 offset=0`: the bytes after the operand. */
  const Epilogue: seq<Byte> := [0x41, 0x05, 0x36, 0x02, 0x00]

  predicate BytesAt(arr: seq<Byte>, j: nat, lits: seq<Byte>)
  {
    j + |lits| <= |arr| && arr[j..j + |lits|] == lits
  }

  /** The candidate the scan records for start position `i`, if the signature is there. */
  function SignatureAt(arr: seq<Byte>, i: nat): Option<int>
  {
    if BytesAt(arr, i, Prologue) then
      var (n, addr) := ReadVarUint(arr[i + |Prologue|..]);
      if BytesAt(arr, i + |Prologue| + n, Epilogue) then Some(Sar2(addr)) else None
    else None
  }

  /** What a scan over positions `0 .. n - 1` collects when position `i` contributes `at(i)`,
      if any, in position order. */
  function Hits(at: nat -> Option<int>, n: nat): seq<int>
  {
    if n == 0 then []
    else Hits(at, n - 1) + (match at(n - 1) case Some(a) => [a] case None => [])
  }

  /** The signature test of every start position of `arr`. */
  function SignatureScan(arr: seq<Byte>): nat -> Option<int>
  {
    (i: nat) => SignatureAt(arr, i)
  }

  /** The candidates of the start positions below `n`, in scan order. */
  function Candidates(arr: seq<Byte>, n: nat): seq<int>
    requires n <= |arr|
  {
    Hits(SignatureScan(arr), n)
  }

  /** `arr[j] === b`, where a position past the end holds `undefined` and equals no byte. */
  predicate IsAt(arr: seq<Byte>, j: nat, b: Byte)
  {
    j < |arr| && arr[j] == b
  }

  lemma BytesAtStep(arr: seq<Byte>, j: nat, lits: seq<Byte>)
    requires lits != []
    ensures BytesAt(arr, j, lits) <==> IsAt(arr, j, lits[0]) && BytesAt(arr, j + 1, lits[1..])
  {
    if IsAt(arr, j, lits[0]) && BytesAt(arr, j + 1, lits[1..]) {
      assert arr[j..j + |lits|] == [arr[j]] + arr[j + 1..j + |lits|];
    }
    if BytesAt(arr, j, lits) {
      assert arr[j] == arr[j..j + |lits|][0];
      assert arr[j + 1..j + |lits|] == arr[j..j + |lits|][1..];
    }
  }

  /** The prologue check of the scan, one `arr[j++] !== lit` at a time. */
  lemma PrologueByBytes(arr: seq<Byte>, i: nat)
    ensures BytesAt(arr, i, Prologue) <==>
      IsAt(arr, i, 0x41) && IsAt(arr, i + 1, 0x01) && IsAt(arr, i + 2, 0x3A) &&
      IsAt(arr, i + 3, 0x00) && IsAt(arr, i + 4, 0x00) && IsAt(arr, i + 5, 0x41)
  {
    var p := Prologue;
    BytesAtStep(arr, i, p);
    BytesAtStep(arr, i + 1, p[1..]);
    BytesAtStep(arr, i + 2, p[2..]);
    BytesAtStep(arr, i + 3, p[3..]);
    BytesAtStep(arr, i + 4, p[4..]);
    BytesAtStep(arr, i + 5, p[5..]);
    assert p[1..][1..] == p[2..] && p[2..][1..] == p[3..] && p[3..][1..] == p[4..];
    assert p[4..][1..] == p[5..] && p[5..][1..] == [];
  }

  /** The epilogue check of the scan, one `arr[j++] !== lit` at a time. */
  lemma EpilogueByBytes(arr: seq<Byte>, j: nat)
    ensures BytesAt(arr, j, Epilogue) <==>
      IsAt(arr, j, 0x41) && IsAt(arr, j + 1, 0x05) && IsAt(arr, j + 2, 0x36) &&
      IsAt(arr, j + 3, 0x02) && IsAt(arr, j + 4, 0x00)
  {
    var p := Epilogue;
    BytesAtStep(arr, j, p);
    BytesAtStep(arr, j + 1, p[1..]);
    BytesAtStep(arr, j + 2, p[2..]);
    BytesAtStep(arr, j + 3, p[3..]);
    BytesAtStep(arr, j + 4, p[4..]);
    assert p[1..][1..] == p[2..] && p[2..][1..] == p[3..] && p[3..][1..] == p[4..];
    assert p[4..][1..] == [];
  }

  /** The body of the scan loop for start `i`: cursor `j` walks the signature and the check
      gives up (`continue` in the source) at the first mismatch. */
  method CheckSignature(arr: seq<Byte>, i: nat) returns (found: bool, candidate: int)
    ensures found <==> SignatureAt(arr, i).Some?
    ensures found ==> candidate == SignatureAt(arr, i).value
  {
    found, candidate := false, 0;
    PrologueByBytes(arr, i);
    var j := i;
    if !IsAt(arr, j, 0x41) { return; }
    j := j + 1;
    if !IsAt(arr, j, 0x01) { return; }
    j := j + 1;
    if !IsAt(arr, j, 0x3A) { return; }
    j := j + 1;
    if !IsAt(arr, j, 0x00) { return; }
    j := j + 1;
    if !IsAt(arr, j, 0x00) { return; }
    j := j + 1;
    if !IsAt(arr, j, 0x41) { return; }
    j := j + 1;
    var offset, addr := ReadVarUint32(arr[j..]);
    j := j + offset;
    EpilogueByBytes(arr, j);
    if !IsAt(arr, j, 0x41) { return; }
    j := j + 1;
    if !IsAt(arr, j, 0x05) { return; }
    j := j + 1;
    if !IsAt(arr, j, 0x36) { return; }
    j := j + 1;
    if !IsAt(arr, j, 0x02) { return; }
    j := j + 1;
    if !IsAt(arr, j, 0x00) { return; }
    found, candidate := true, Sar2(addr);
  }

  /** The scan loop of `getInventoryBaseAddress`: every start position in turn, pushing each
      candidate onto `addrs`. */
  method ScanCandidates(arr: seq<Byte>) returns (addrs: seq<int>)
    ensures addrs == Candidates(arr, |arr|)
  {
    addrs := [];
    for i := 0 to |arr|
      invariant addrs == Candidates(arr, i)
    {
      var found, addr := CheckSignature(arr, i);
      if found {
        addrs := addrs + [addr];
      }
    }
  }

  lemma {:induction false} HitsGrow(at: nat -> Option<int>, m: nat, n: nat)
    requires m <= n
    ensures |Hits(at, m)| <= |Hits(at, n)|
    ensures Hits(at, m) == Hits(at, n)[..|Hits(at, m)|]
  {
    if m < n {
      HitsGrow(at, m, n - 1);
    }
  }

  lemma {:induction false} HitsExactly(at: nat -> Option<int>, n: nat, a: int)
    ensures a in Hits(at, n) <==> exists i :: 0 <= i < n && at(i) == Some(a)
  {
    if n > 0 {
      HitsExactly(at, n - 1, a);
    }
  }

  lemma {:induction false} HitsSkip(at: nat -> Option<int>, m: nat, n: nat)
    requires m <= n
    requires forall i :: m <= i < n ==> at(i).None?
    ensures Hits(at, n) == Hits(at, m)
  {
    if m < n {
      HitsSkip(at, m, n - 1);
    }
  }

  lemma {:induction false} FirstHitLowest(at: nat -> Option<int>, n: nat)
    requires Hits(at, n) != []
    ensures exists i :: 0 <= i < n && at(i) == Some(Hits(at, n)[0]) &&
                        forall k :: 0 <= k < i ==> at(k).None?
  {
    if Hits(at, n - 1) == [] {
      forall k | 0 <= k < n - 1
        ensures at(k).None?
      {
        if at(k).Some? {
          HitsExactly(at, n - 1, at(k).value);
        }
      }
      assert at(n - 1).Some?;
    } else {
      FirstHitLowest(at, n - 1);
      HitsGrow(at, n - 1, n);
    }
  }

  /** Candidates are recorded in increasing order of start position: scanning further only
      appends. */
  lemma CandidatesGrow(arr: seq<Byte>, m: nat, n: nat)
    requires m <= n <= |arr|
    ensures |Candidates(arr, m)| <= |Candidates(arr, n)|
    ensures Candidates(arr, m) == Candidates(arr, n)[..|Candidates(arr, m)|]
  {
    HitsGrow(SignatureScan(arr), m, n);
  }

  /** A value is a candidate exactly when the signature with that operand occurs at some
      start position. */
  lemma CandidatesExactly(arr: seq<Byte>, n: nat, a: int)
    requires n <= |arr|
    ensures a in Candidates(arr, n) <==> exists i :: 0 <= i < n && SignatureAt(arr, i) == Some(a)
  {
    var at := SignatureScan(arr);
    HitsExactly(at, n, a);
    if a in Candidates(arr, n) {
      var i :| 0 <= i < n && at(i) == Some(a);
      assert SignatureAt(arr, i) == Some(a);
    }
    if exists i :: 0 <= i < n && SignatureAt(arr, i) == Some(a) {
      var i :| 0 <= i < n && SignatureAt(arr, i) == Some(a);
      assert at(i) == Some(a);
    }
  }

  lemma CandidatesSkip(arr: seq<Byte>, m: nat, n: nat)
    requires m <= n <= |arr|
    requires forall i :: m <= i < n ==> SignatureAt(arr, i).None?
    ensures Candidates(arr, n) == Candidates(arr, m)
  {
    var at := SignatureScan(arr);
    assert forall i :: m <= i < n ==> at(i).None?;
    HitsSkip(at, m, n);
  }

  /** The first candidate belongs to the lowest start position where the signature occurs. */
  lemma FirstCandidateLowest(arr: seq<Byte>, n: nat)
    requires n <= |arr| && Candidates(arr, n) != []
    ensures exists i :: 0 <= i < n && SignatureAt(arr, i) == Some(Candidates(arr, n)[0]) &&
                        forall k :: 0 <= k < i ==> SignatureAt(arr, k).None?
  {
    var at := SignatureScan(arr);
    FirstHitLowest(at, n);
    var i :| 0 <= i < n && at(i) == Some(Hits(at, n)[0]) && forall k :: 0 <= k < i ==> at(k).None?;
    assert SignatureAt(arr, i) == Some(Candidates(arr, n)[0]);
    forall k | 0 <= k < i
      ensures SignatureAt(arr, k).None?
    {
      assert at(k).None?;
    }
  }

  datatype ScanError = AddressNotFound

  /** `getInventoryBaseAddress` of getPetalCount.js and getMobCount.js: no candidate is an
      error, one candidate is the answer, and of several the first one is used. */
  method GetInventoryBaseAddress(wasm: seq<Byte>) returns (r: Result<int, ScanError>)
    ensures r.Err? <==> Candidates(wasm, |wasm|) == []
    ensures r.Ok? ==> r.value == Candidates(wasm, |wasm|)[0]
    ensures r.Ok? ==> exists i :: 0 <= i < |wasm| && SignatureAt(wasm, i) == Some(r.value) &&
                                  forall k :: 0 <= k < i ==> SignatureAt(wasm, k).None?
  {
    var addrs := ScanCandidates(wasm);
    if |addrs| == 1 {
      r := Ok(addrs[0]);
    } else if |addrs| == 0 {
      return Err(AddressNotFound);
    } else {
      r := Ok(addrs[0]);
    }
    FirstCandidateLowest(wasm, |wasm|);
  }

  /** `getInventoryBaseAddress` of script/KilledThisRun.js: `addrs[0]`, which is `undefined`
      (None) when nothing matched; no error is raised. */
  method FirstInventoryBaseAddress(wasm: seq<Byte>) returns (r: Option<int>)
    ensures r.None? <==> Candidates(wasm, |wasm|) == []
    ensures r.Some? ==> r.value == Candidates(wasm, |wasm|)[0]
  {
    var addrs := ScanCandidates(wasm);
    r := if |addrs| > 0 then Some(addrs[0]) else None;
  }

  /** The signature with the one-byte operand 5 (byte address 5, word index 5 >> 2 = 1). */
  const SampleSignature: seq<Byte> := [0x41, 0x01, 0x3A, 0x00, 0x00, 0x41, 0x05, 0x41, 0x05, 0x36, 0x02, 0x00]

  lemma SampleOperand(arr: seq<Byte>, i: nat)
    requires i + 12 <= |arr| && arr[i..i + 12] == SampleSignature
    ensures SignatureAt(arr, i) == Some(1)
  {
    var s := SampleSignature;
    assert arr[i..i + 6] == s[..6] == Prologue;
    var rest := arr[i + 6..];
    assert rest[0] == 5;
    FirstStopIs(rest, 0);
    DecodeSingleByte(5, rest[1..]);
    assert [rest[0]] + rest[1..] == rest;
    ReadVarUintAgrees(rest);
    assert ReadVarUint(rest) == (1, 5);
    assert arr[i + 7..i + 12] == s[7..] == Epilogue;
  }

  lemma NoSignatureAt(arr: seq<Byte>, i: nat)
    requires !IsAt(arr, i, 0x41) || !IsAt(arr, i + 1, 0x01)
    ensures SignatureAt(arr, i).None?
  {
    PrologueByBytes(arr, i);
  }

  /** A copy of the sample signature starting at `m` adds the one candidate 1: no other start
      position inside the copy matches. */
  lemma CandidatesAcrossSample(arr: seq<Byte>, m: nat)
    requires m + 12 <= |arr| && arr[m..m + 12] == SampleSignature
    ensures Candidates(arr, m + 12) == Candidates(arr, m) + [1]
  {
    SampleOperand(arr, m);
    assert Candidates(arr, m + 1) == Candidates(arr, m) + [1];
    forall i | m < i < m + 12
      ensures SignatureAt(arr, i).None?
    {
      assert arr[i] == SampleSignature[i - m];
      if i + 1 < m + 12 {
        assert arr[i + 1] == SampleSignature[i + 1 - m];
      }
      NoSignatureAt(arr, i);
    }
    CandidatesSkip(arr, m + 1, m + 12);
  }

  /** The sample signature alone yields exactly the candidate 1. */
  lemma SingleSignatureExample()
    ensures Candidates(SampleSignature, 12) == [1]
  {
    assert SampleSignature[0..12] == SampleSignature;
    CandidatesAcrossSample(SampleSignature, 0);
  }

  /** Two copies of the sample signature: two candidates, both 1, and the first is used. */
  lemma AmbiguousSignatureExample()
    ensures Candidates(SampleSignature + SampleSignature, 24) == [1, 1]
  {
    var d := SampleSignature + SampleSignature;
    assert d[0..12] == SampleSignature && d[12..24] == SampleSignature;
    CandidatesAcrossSample(d, 0);
    CandidatesAcrossSample(d, 12);
  }
}
