/** button.js: find the first match of a wildcard byte pattern in the client binary and decode
    a LEB128 number from the bytes at fixed offsets of that match, one number per named task. */
module Button {
  import opened Wrappers
  import opened Int32
  import opened Leb128

  /** `decodeLEB128FromArray`: the loop that ORs each group into `result` at `shift` and
      returns at the first byte whose high bit is clear. */
  method DecodeLEB128FromArray(bytesArr: seq<Byte>) returns (r: Result<int, LebError>)
    ensures r == Decode(bytesArr)
  {
    var result: U32 := 0;
    var shift: nat := 0;
    var k := 0;
    while k < |bytesArr|
      invariant 0 <= k <= |bytesArr|
      invariant shift == 7 * k
      invariant result == Acc(bytesArr, k)
      invariant forall i :: 0 <= i < k ==> HasMore(bytesArr[i])
    {
      var byte := bytesArr[k];
      result := Or(result, Shl(Low7(byte), shift));
      if !HasMore(byte) {
        FirstStopIs(bytesArr, k);
        return Ok(ToSigned(result));
      }
      shift := shift + 7;
      k := k + 1;
    }
    DecodeFails(bytesArr);
    return Err(IncompleteSequence);
  }

  /** A pattern slot: a literal byte, or `'*'`, which matches any byte. */
  datatype Slot = Lit(b: Byte) | Wildcard

  predicate MatchesAt(data: seq<Byte>, pattern: seq<Slot>, i: nat)
    requires i + |pattern| <= |data|
  {
    forall j :: 0 <= j < |pattern| ==> pattern[j].Wildcard? || data[i + j] == pattern[j].b
  }

  /** The lowest position at or after `i` where `pattern` matches, or -1. */
  function FirstMatchFrom(data: seq<Byte>, pattern: seq<Slot>, i: nat): (r: int)
    ensures r == -1 || (i <= r && r + |pattern| <= |data| && MatchesAt(data, pattern, r))
    ensures r != -1 ==> forall k :: i <= k < r ==> !MatchesAt(data, pattern, k)
    ensures r == -1 <==> forall k :: i <= k && k + |pattern| <= |data| ==> !MatchesAt(data, pattern, k)
    decreases |data| - i
  {
    if i + |pattern| > |data| then -1
    else if MatchesAt(data, pattern, i) then i
    else FirstMatchFrom(data, pattern, i + 1)
  }

  function FirstMatch(data: seq<Byte>, pattern: seq<Slot>): int
  {
    FirstMatchFrom(data, pattern, 0)
  }

  /** `findMatch`: nested loops with an `ok` flag; the outer loop runs while
      `i <= data.length - pattern.length`, so a pattern longer than the data never matches. */
  method FindMatch(data: seq<Byte>, pattern: seq<Slot>) returns (idx: int)
    ensures idx == FirstMatch(data, pattern)
    ensures idx == -1 <==> forall i :: 0 <= i && i + |pattern| <= |data| ==> !MatchesAt(data, pattern, i)
    ensures idx != -1 ==> 0 <= idx && idx + |pattern| <= |data| && MatchesAt(data, pattern, idx)
    ensures idx != -1 ==> forall i :: 0 <= i < idx ==> !MatchesAt(data, pattern, i)
  {
    var i := 0;
    while i <= |data| - |pattern|
      invariant 0 <= i
      invariant i <= |data| - |pattern| + 1 || i == 0
      invariant FirstMatch(data, pattern) == FirstMatchFrom(data, pattern, i)
      decreases |data| - i
    {
      var ok := true;
      var j := 0;
      while j < |pattern|
        invariant 0 <= j <= |pattern|
        invariant ok <==> forall q :: 0 <= q < j ==> pattern[q].Wildcard? || data[i + q] == pattern[q].b
        invariant !ok ==> !MatchesAt(data, pattern, i)
      {
        var expected := pattern[j];
        var actual := data[i + j];
        if expected.Lit? && actual != expected.b {
          ok := false;
          break;
        }
        j := j + 1;
      }
      if ok {
        return i;
      }
      i := i + 1;
    }
    return -1;
  }

  /** A task: a result name and the offsets, relative to the match, of the bytes to decode. */
  datatype Task = Task(name: string, offsets: seq<int>)

  /** The bytes at `m + offsets[k]`, in offset order, or None when one of them lies outside
      the data. */
  function Gather(bytes: seq<Byte>, m: int, offsets: seq<int>): (r: Option<seq<Byte>>)
    ensures r.Some? <==> forall k :: 0 <= k < |offsets| ==> 0 <= m + offsets[k] < |bytes|
    ensures r.Some? ==> |r.value| == |offsets|
    ensures r.Some? ==> forall k :: 0 <= k < |offsets| ==> r.value[k] == bytes[m + offsets[k]]
  {
    if offsets == [] then Some([])
    else
      var idx := m + offsets[0];
      if idx < 0 || idx >= |bytes| then None
      else match Gather(bytes, m, offsets[1..])
        case None => None
        case Some(rest) => Some([bytes[idx]] + rest)
  }

  /** The value one task yields at match `m`: null when an offset is out of range, when there
      are no offsets, or when the gathered bytes are not a complete LEB128 number. */
  function TaskValue(bytes: seq<Byte>, m: int, offsets: seq<int>): Option<int>
  {
    match Gather(bytes, m, offsets)
    case None => None
    case Some(gathered) =>
      if gathered == [] then None
      else match Decode(gathered)
        case Ok(v) => Some(v)
        case Err(_) => None
  }

  /** The result object after the given tasks, at match `m` (-1: no match, every value null).
      A later task with the same name overwrites an earlier one, as a property assignment
      does. */
  function TaskResults(bytes: seq<Byte>, m: int, tasks: seq<Task>): (r: map<string, Option<int>>)
    ensures r.Keys == set t | t in tasks :: t.name
  {
    if tasks == [] then map[]
    else
      var last := tasks[|tasks| - 1];
      TaskResults(bytes, m, tasks[..|tasks| - 1])[last.name := if m == -1 then None else TaskValue(bytes, m, last.offsets)]
  }

  /** Every name maps to the value of the LAST task carrying it; so one task's decode failure
      nulls only its own entry. */
  lemma {:induction false} TaskResultsEntry(bytes: seq<Byte>, m: int, tasks: seq<Task>, k: nat)
    requires k < |tasks|
    requires forall q :: k < q < |tasks| ==> tasks[q].name != tasks[k].name
    ensures TaskResults(bytes, m, tasks)[tasks[k].name]
      == if m == -1 then None else TaskValue(bytes, m, tasks[k].offsets)
  {
    if k < |tasks| - 1 {
      TaskResultsEntry(bytes, m, tasks[..|tasks| - 1], k);
    }
  }

  /** The position of the last task with the given name, -1 when there is none. */
  function LastNamed(tasks: seq<Task>, name: string): (k: int)
    ensures -1 <= k < |tasks|
    ensures k == -1 <==> forall q :: 0 <= q < |tasks| ==> tasks[q].name != name
    ensures k >= 0 ==> tasks[k].name == name && forall q :: k < q < |tasks| ==> tasks[q].name != name
  {
    if tasks == [] then -1
    else if tasks[|tasks| - 1].name == name then |tasks| - 1
    else LastNamed(tasks[..|tasks| - 1], name)
  }

  /** When nothing matches, every task name maps to null. */
  lemma NoMatchAllNull(bytes: seq<Byte>, tasks: seq<Task>)
    ensures forall name :: name in TaskResults(bytes, -1, tasks) ==> TaskResults(bytes, -1, tasks)[name] == None
  {
    forall name | name in TaskResults(bytes, -1, tasks)
      ensures TaskResults(bytes, -1, tasks)[name] == None
    {
      var t :| t in tasks && t.name == name;
      var k := LastNamed(tasks, name);
      TaskResultsEntry(bytes, -1, tasks, k);
    }
  }

  /** The gathering loop of one task: the bytes at `m + offsets[k]`, or no bytes at all once
      an offset falls outside the data. */
  method GatherBytes(bytes: seq<Byte>, m: int, offsets: seq<int>) returns (bytesToDecode: seq<Byte>)
    ensures Gather(bytes, m, offsets).Some? ==> bytesToDecode == Gather(bytes, m, offsets).value
    ensures Gather(bytes, m, offsets).None? ==> bytesToDecode == []
  {
    bytesToDecode := [];
    var j := 0;
    while j < |offsets|
      invariant 0 <= j <= |offsets| && |bytesToDecode| == j
      invariant forall q :: 0 <= q < j ==> 0 <= m + offsets[q] < |bytes|
      invariant forall q :: 0 <= q < j ==> bytesToDecode[q] == bytes[m + offsets[q]]
    {
      var idx := m + offsets[j];
      if idx < 0 || idx >= |bytes| {
        return [];
      }
      bytesToDecode := bytesToDecode + [bytes[idx]];
      j := j + 1;
    }
  }

  /** One task of the decode loop: null for no bytes and for a failed decode. */
  method RunTask(bytes: seq<Byte>, m: int, offsets: seq<int>) returns (value: Option<int>)
    ensures value == TaskValue(bytes, m, offsets)
  {
    var bytesToDecode := GatherBytes(bytes, m, offsets);
    if |bytesToDecode| == 0 {
      return None;
    }
    var val := DecodeLEB128FromArray(bytesToDecode);
    match val
    case Ok(v) =>
      value := Some(v);
    case Err(_) =>
      value := None;
  }

  /** `matchPatternAndDecodeMulti`. */
  method MatchPatternAndDecodeMulti(bytes: seq<Byte>, targetPattern: seq<Slot>, tasks: seq<Task>)
    returns (result: map<string, Option<int>>)
    ensures result == TaskResults(bytes, FirstMatch(bytes, targetPattern), tasks)
    ensures result.Keys == set t | t in tasks :: t.name
  {
    var matchIndex := FindMatch(bytes, targetPattern);
    if matchIndex == -1 {
      NoMatchAllNull(bytes, tasks);
      return map t | t in tasks :: t.name := None;
    }
    result := map[];
    for k := 0 to |tasks|
      invariant result == TaskResults(bytes, matchIndex, tasks[..k])
    {
      assert tasks[..k + 1][..k] == tasks[..k];
      var value := RunTask(bytes, matchIndex, tasks[k].offsets);
      result := result[tasks[k].name := value];
    }
    assert tasks[..|tasks|] == tasks;
  }
}
