/** The growable message buffer: values are appended as raw bytes by the sender and read back in order by the receiver. */
module Message {
  import opened Bytes
  import opened Growth

  /** The largest object an allocator hands out with a 64-bit size_t. */
  const MAX_OBJECT: nat := 0x7FFF_FFFF_FFFF_FFFF

  class Message {
    var buffer: array?<byte>
    var bufferLength: nat
    var dataLength: nat
    var sizeRead: nat

    /** The sum of the old capacities at the reallocations so far: the bytes realloc may have had to move. */
    ghost var moved: nat

    ghost function Repr(): set<object>
      reads this
    {
      {this} + if buffer == null then {} else {buffer}
    }

    ghost predicate Valid()
      reads this
    {
      && (buffer == null ==> bufferLength == 0)
      && (buffer != null ==> buffer.Length == bufferLength)
      && dataLength <= bufferLength
      && sizeRead <= bufferLength
    }

    /** What data() and size() expose. */
    ghost function Data(): seq<byte>
      requires Valid()
      reads this, Repr()
    {
      if buffer == null then [] else buffer[..dataLength]
    }

    /** The whole allocation, past the data included. */
    ghost function Allocated(): seq<byte>
      requires Valid()
      reads this, Repr()
    {
      if buffer == null then [] else buffer[..]
    }

    /** Nothing but encodes since construction with no reserved length, all of them below 2^32 bytes. */
    ghost predicate Grown()
      reads this
    {
      if bufferLength == 0 then moved == 0 else IsPow2(bufferLength) && moved < bufferLength < 2 * dataLength
    }

    constructor (reservedLength: nat, allocates: bool)
      requires reservedLength <= MAX_OBJECT
      ensures Valid() && fresh(Repr())
      ensures Data() == [] && dataLength == 0 && sizeRead == 0
      ensures bufferLength >= reservedLength || (!allocates && bufferLength == 0)
      ensures reservedLength == 0 ==> Grown()
    {
      buffer, bufferLength, dataLength, sizeRead := null, 0, 0, 0;
      moved := 0;
      new;
      var reserved := Reserve(reservedLength, allocates);
    }

    constructor FromBytes(bytes: seq<byte>)
      ensures Valid() && fresh(Repr())
      ensures Data() == bytes && Allocated() == bytes && bufferLength == dataLength == |bytes| && sizeRead == 0
    {
      var allocation := new byte[|bytes|](i requires 0 <= i < |bytes| => bytes[i]);
      buffer, bufferLength, dataLength, sizeRead := allocation, |bytes|, |bytes|, 0;
      moved := 0;
    }

    method Reserve(length: nat, allocates: bool) returns (success: bool)
      requires Valid() && length <= MAX_OBJECT
      modifies this
      ensures Valid() && fresh(Repr() - old(Repr()))
      ensures success <==> length <= old(bufferLength) || allocates
      ensures success ==> length <= bufferLength
      ensures !success || length <= old(bufferLength) ==> unchanged(this)
      ensures success && length > old(bufferLength) ==> bufferLength == Rounded(length) && moved == old(moved) + old(bufferLength)
      ensures dataLength == old(dataLength) && sizeRead == old(sizeRead)
      ensures old(Allocated()) <= Allocated()
    {
      if length == 0 || bufferLength >= length {
        return true;
      }
      RoundedAtLeast(length);
      var size := NextPOTSize(length);
      success := ResizeBuffer(size, allocates);
    }

    /** malloc or realloc; the source's assertions are the two asserts. */
    method ResizeBuffer(size: nat, allocates: bool) returns (success: bool)
      requires Valid() && size > bufferLength
      modifies this
      ensures Valid() && fresh(Repr() - old(Repr()))
      ensures success == allocates
      ensures !success ==> unchanged(this)
      ensures success ==> bufferLength == size && moved == old(moved) + old(bufferLength)
      ensures dataLength == old(dataLength) && sizeRead == old(sizeRead)
      ensures old(Allocated()) <= Allocated()
    {
      if buffer == null {
        assert bufferLength == 0;
        success := allocates;
        if success {
          buffer := new byte[size];
          bufferLength := size;
        }
        return;
      }
      assert size > bufferLength;
      success := allocates;
      if success {
        var resized := new byte[size];
        forall i | 0 <= i < bufferLength {
          resized[i] := buffer[i];
        }
        moved := moved + bufferLength;
        assert resized[..bufferLength] == buffer[..];
        buffer := resized;
        bufferLength := size;
      }
    }

    /** Appends the bytes of one value, or changes nothing when the allocation it needs fails. */
    method Encode(value: seq<byte>, allocates: bool) returns (success: bool)
      requires Valid() && value != [] && dataLength + |value| <= MAX_OBJECT
      modifies Repr()
      ensures Valid() && fresh(Repr() - old(Repr()))
      ensures success <==> old(dataLength) + |value| <= old(bufferLength) || allocates
      ensures success ==> Data() == old(Data()) + value && dataLength == old(dataLength) + |value|
      ensures success ==> bufferLength == if dataLength <= old(bufferLength) then old(bufferLength) else Rounded(dataLength)
      ensures !success ==> unchanged(this) && Allocated() == old(Allocated())
      ensures sizeRead == old(sizeRead)
      ensures success && old(Grown()) && dataLength <= 0x1_0000_0000 ==> Grown()
    {
      hide Rounded, IsPow2;
      ghost var capacity := bufferLength;
      success := Reserve(dataLength + |value|, allocates);
      if success {
        assert Data() == Allocated()[..dataLength] == old(Data());
        Append(value);
        if old(Grown()) && capacity < dataLength <= 0x1_0000_0000 {
          GrowthKept(capacity, old(moved), dataLength);
        }
      }
    }

    /** memcpy behind the data. */
    method Append(value: seq<byte>)
      requires Valid() && value != [] && dataLength + |value| <= bufferLength
      modifies this`dataLength, buffer
      ensures Valid() && Data() == old(Data()) + value && dataLength == old(dataLength) + |value|
    {
      ghost var before := Data();
      forall i | 0 <= i < |value| {
        buffer[dataLength + i] := value[i];
      }
      assert buffer[..dataLength + |value|] == before + value;
      dataLength := dataLength + |value|;
    }

    /** Whether a decode of n bytes goes through. */
    predicate Accepts(n: nat)
      reads this
    {
      n + sizeRead <= bufferLength
    }

    /** Copies the next n bytes of the allocation; the check is against the allocation, not against the data. */
    method Decode(n: nat) returns (success: bool, value: seq<byte>)
      requires Valid()
      modifies `sizeRead
      ensures Valid()
      ensures success <==> old(Accepts(n))
      ensures success ==> sizeRead == old(sizeRead) + n && value == Allocated()[old(sizeRead)..sizeRead]
      ensures !success ==> value == [] && sizeRead == old(sizeRead)
    {
      if !Accepts(n) {
        return false, [];
      }
      value := if buffer == null then [] else buffer[sizeRead..sizeRead + n];
      sizeRead := sizeRead + n;
      success := true;
    }
  }

  /** One growth step keeps the accounting: the new power of two at least doubles the old one. */
  lemma GrowthKept(capacity: nat, moved: nat, length: nat)
    requires if capacity == 0 then moved == 0 else IsPow2(capacity) && moved < capacity
    requires capacity < length <= 0x1_0000_0000
    ensures IsPow2(Rounded(length)) && moved + capacity < Rounded(length) < 2 * length
  {
    RoundedIsLeastPow2(length);
    if capacity > 0 { LargerPow2Doubles(capacity, Rounded(length)); }
  }

  // ---------------------------------------------------------------- whole runs

  function Flatten(values: seq<seq<byte>>): seq<byte> {
    if values == [] then [] else Flatten(values[..|values| - 1]) + values[|values| - 1]
  }

  /** Where the k-th value stands in the whole. */
  lemma {:induction false} FlattenTake(values: seq<seq<byte>>, k: nat)
    requires k < |values|
    ensures var before := |Flatten(values[..k])|;
            && before + |values[k]| <= |Flatten(values)|
            && Flatten(values)[before..before + |values[k]|] == values[k]
            && |Flatten(values[..k + 1])| == before + |values[k]|
  {
    assert values[..k + 1][..k] == values[..k];
    if k < |values| - 1 {
      var init := values[..|values| - 1];
      FlattenTake(init, k);
      assert init[..k] == values[..k];
      var before := |Flatten(values[..k])|;
      assert Flatten(values)[before..before + |values[k]|] == Flatten(init)[before..before + |values[k]|];
    } else {
      assert values[..k + 1] == values;
    }
  }

  ghost predicate AllNonEmpty(values: seq<seq<byte>>) { forall k | 0 <= k < |values| :: values[k] != [] }

  /** What a sender has after a run of encodes: its capacity, the length of its data, and which encodes have succeeded. */
  datatype Account = Account(capacity: nat, length: nat, succeeded: seq<bool>)

  /** A value is encoded exactly when it fits in the capacity so far or the allocation it then needs succeeds. */
  function Sending(values: seq<seq<byte>>, allocates: seq<bool>): Account
    requires |allocates| == |values|
  {
    if values == [] then Account(0, 0, [])
    else
      var last := |values| - 1;
      var was := Sending(values[..last], allocates[..last]);
      var length := was.length + |values[last]|;
      if length <= was.capacity then Account(was.capacity, length, was.succeeded + [true])
      else if allocates[last] then Account(Rounded(length % WORD), length, was.succeeded + [true])
      else was.(succeeded := was.succeeded + [false])
  }

  function Select(values: seq<seq<byte>>, succeeded: seq<bool>): seq<seq<byte>>
    requires |succeeded| == |values|
  {
    if values == [] then []
    else
      var last := |values| - 1;
      Select(values[..last], succeeded[..last]) + if succeeded[last] then [values[last]] else []
  }

  lemma {:induction false} SendingAnswersAll(values: seq<seq<byte>>, allocates: seq<bool>)
    requires |allocates| == |values|
    ensures |Sending(values, allocates).succeeded| == |values|
  {
    if values != [] { SendingAnswersAll(values[..|values| - 1], allocates[..|values| - 1]); }
  }

  lemma SendingNext(values: seq<seq<byte>>, allocates: seq<bool>, i: nat)
    requires |allocates| == |values| && i < |values|
    ensures var was, length := Sending(values[..i], allocates[..i]), Sending(values[..i], allocates[..i]).length + |values[i]|;
            Sending(values[..i + 1], allocates[..i + 1]) ==
              if length <= was.capacity then Account(was.capacity, length, was.succeeded + [true])
              else if allocates[i] then Account(Rounded(length % WORD), length, was.succeeded + [true])
              else was.(succeeded := was.succeeded + [false])
  {
    assert values[..i + 1][..i] == values[..i] && allocates[..i + 1][..i] == allocates[..i];
    hide Rounded;
  }

  lemma SelectNext(values: seq<seq<byte>>, succeeded: seq<bool>, i: nat, ok: bool)
    requires i < |values| && |succeeded| == i
    ensures Select(values[..i + 1], succeeded + [ok]) == Select(values[..i], succeeded) + if ok then [values[i]] else []
  {
    assert values[..i + 1][..i] == values[..i] && (succeeded + [ok])[..i] == succeeded;
  }

  /** The k-th answer, from the values and allocations up to there. */
  lemma {:induction false} SucceededIff(values: seq<seq<byte>>, allocates: seq<bool>, k: nat)
    requires |allocates| == |values| && k < |values|
    ensures |Sending(values, allocates).succeeded| == |values|
    ensures var was := Sending(values[..k], allocates[..k]);
            Sending(values, allocates).succeeded[k] <==> was.length + |values[k]| <= was.capacity || allocates[k]
  {
    hide Rounded;
    SendingAnswersAll(values, allocates);
    var last := |values| - 1;
    SendingAnswersAll(values[..last], allocates[..last]);
    if k < last {
      SucceededIff(values[..last], allocates[..last], k);
      assert values[..last][..k] == values[..k] && allocates[..last][..k] == allocates[..k];
    }
  }

  /** With every allocation granted every value is sent. */
  lemma {:induction false} AllAllocatedAllSent(values: seq<seq<byte>>, allocates: seq<bool>)
    requires |allocates| == |values| && forall k | 0 <= k < |allocates| :: allocates[k]
    ensures |Sending(values, allocates).succeeded| == |values| && Select(values, Sending(values, allocates).succeeded) == values
  {
    hide Rounded;
    SendingAnswersAll(values, allocates);
    if values != [] {
      var last := |values| - 1;
      SendingAnswersAll(values[..last], allocates[..last]);
      AllAllocatedAllSent(values[..last], allocates[..last]);
      var succeeded := Sending(values, allocates).succeeded;
      assert succeeded[..last] == Sending(values[..last], allocates[..last]).succeeded && succeeded[last];
      assert values == values[..last] + [values[last]];
    }
  }

  /** Encodes value after value; a failed allocation drops its value only. */
  method EncodeAll(values: seq<seq<byte>>, allocates: seq<bool>)
    returns (sender: Message, succeeded: seq<bool>, kept: seq<seq<byte>>)
    requires |allocates| == |values| && AllNonEmpty(values) && |Flatten(values)| <= MAX_OBJECT
    ensures fresh(sender.Repr()) && sender.Valid() && sender.Data() == Flatten(kept)
    ensures Account(sender.bufferLength, sender.dataLength, succeeded) == Sending(values, allocates)
    ensures |succeeded| == |values| && kept == Select(values, succeeded)
    ensures sender.dataLength <= 0x1_0000_0000 ==> sender.Grown()
  {
    hide IsPow2, AllNonEmpty, Flatten, Rounded, Sending, Select;
    sender := new Message(0, true);
    succeeded, kept := [], [];
    FlattenNothing(values);
    NothingSentYet(values, allocates);
    for i := 0 to |values|
      invariant sender.Valid() && fresh(sender.Repr()) && (sender.dataLength <= 0x1_0000_0000 ==> sender.Grown())
      invariant sender.Data() == Flatten(kept) && |Flatten(kept)| <= |Flatten(values[..i])|
      invariant |succeeded| == i && kept == Select(values[..i], succeeded)
      invariant Account(sender.bufferLength, sender.dataLength, succeeded) == Sending(values[..i], allocates[..i])
    {
      FlattenTake(values, i);
      assert values[i] != [] by { NonEmptyAt(values, i); }
      SendingNext(values, allocates, i);
      var ok := sender.Encode(values[i], allocates[i]);
      TakeNext(values, i);
      SelectNext(values, succeeded, i, ok);
      succeeded := succeeded + [ok];
      if ok {
        FlattenSnoc(kept, values[i]);
        kept := kept + [values[i]];
      }
    }
    assert values[..|values|] == values && allocates[..|values|] == allocates;
  }

  lemma NothingSentYet(values: seq<seq<byte>>, allocates: seq<bool>)
    requires |allocates| == |values|
    ensures Sending(values[..0], allocates[..0]) == Account(0, 0, []) && Select(values[..0], []) == []
  {
  }

  lemma FlattenNothing(values: seq<seq<byte>>)
    ensures values[..0] == [] && Flatten([]) == []
  {
  }

  lemma FlattenSnoc(values: seq<seq<byte>>, value: seq<byte>)
    ensures Flatten(values + [value]) == Flatten(values) + value
  {
    assert (values + [value])[..|values|] == values;
  }

  lemma TakeNext(values: seq<seq<byte>>, i: nat)
    requires i < |values|
    ensures values[..i + 1] == values[..i] + [values[i]]
  {
  }

  lemma NonEmptyAt(values: seq<seq<byte>>, i: nat)
    requires AllNonEmpty(values) && i < |values|
    ensures values[i] != []
  {
  }

  /** Decodes as many values as were encoded, then tries for more. */
  method DecodeAll(data: seq<byte>, kept: seq<seq<byte>>, extra: nat) returns (decoded: seq<seq<byte>>, more: bool)
    requires data == Flatten(kept) && extra > 0
    ensures decoded == kept && !more
  {
    hide Flatten;
    var receiver := new Message.FromBytes(data);
    decoded := [];
    FlattenNothing(kept);
    for i := 0 to |kept|
      invariant receiver.Valid() && fresh(receiver.Repr()) && receiver.Allocated() == data
      invariant receiver.bufferLength == |data|
      invariant receiver.sizeRead == |Flatten(kept[..i])| && decoded == kept[..i]
    {
      FlattenTake(kept, i);
      TakeNext(kept, i);
      var ok, value := receiver.Decode(|kept[i]|);
      decoded := decoded + [value];
    }
    assert kept[..|kept|] == kept;
    var rest;
    more, rest := receiver.Decode(extra);
  }

  /**
   A whole transfer under any pattern of allocation failures: what the receiver decodes is what the sender managed to encode, in
   order, and then every further decode is rejected without effect.  Up to 2^32 bytes the sender's reallocations moved fewer bytes
   than its final capacity, which is less than twice its data.
   */
  method Transfer(values: seq<seq<byte>>, allocates: seq<bool>, extra: nat)
    returns (succeeded: seq<bool>, decoded: seq<seq<byte>>, more: bool, capacity: nat, size: nat, ghost moved: nat)
    requires |allocates| == |values| && AllNonEmpty(values) && |Flatten(values)| <= MAX_OBJECT && extra > 0
    ensures Account(capacity, size, succeeded) == Sending(values, allocates) && |succeeded| == |values|
    ensures decoded == Select(values, succeeded) && !more && size == |Flatten(decoded)|
    ensures (forall k | 0 <= k < |allocates| :: allocates[k]) ==> decoded == values
    ensures 0 < size <= 0x1_0000_0000 ==> moved < capacity < 2 * size
  {
    hide Flatten, Sending, Select, AllNonEmpty;
    var sender, kept;
    sender, succeeded, kept := EncodeAll(values, allocates);
    capacity, size, moved := sender.bufferLength, sender.dataLength, sender.moved;
    var data := if sender.buffer == null then [] else sender.buffer[..sender.dataLength];
    decoded, more := DecodeAll(data, kept, extra);
    if forall k | 0 <= k < |allocates| :: allocates[k] { AllAllocatedAllSent(values, allocates); }
  }

  // ---------------------------------------------------------------- decoding past the data

  /** Exactly when no non-empty decode that goes through leaves the data: nothing is left over behind it, or nothing to read at all. */
  lemma DecodesStayInDataIff(m: Message)
    requires m.Valid()
    ensures (forall n: nat | n > 0 && m.Accepts(n) :: m.sizeRead + n <= m.dataLength)
            <==> m.bufferLength == m.dataLength || m.sizeRead == m.bufferLength
  {
    if m.sizeRead < m.bufferLength {
      var rest := m.bufferLength - m.sizeRead;
      assert m.Accepts(rest);
    }
  }

  /** A sender has nothing left over exactly when its data length is a power of two, which the caller can tell beforehand. */
  lemma NothingLeftOverIff(m: Message)
    requires m.Valid() && m.Grown() && m.dataLength > 0
    ensures m.bufferLength == m.dataLength <==> IsPow2(m.dataLength)
  {
    if IsPow2(m.dataLength) && m.dataLength < m.bufferLength {
      LargerPow2Doubles(m.dataLength, m.bufferLength);
    }
  }

  /** So a sender that has read nothing is safe to decode from exactly for such lengths. */
  lemma SenderDecodesStayInDataIff(m: Message)
    requires m.Valid() && m.Grown() && m.dataLength > 0 && m.sizeRead == 0
    ensures (forall n: nat | n > 0 && m.Accepts(n) :: n <= m.dataLength) <==> IsPow2(m.dataLength)
  {
    hide IsPow2;
    DecodesStayInDataIff(m);
    NothingLeftOverIff(m);
  }

  lemma RoundedOfThree()
    ensures Rounded(3) == 4
  {
    hide Rounded;
    RoundedIsLeastPow2(3);
    assert Pow2(1) == 2 && Pow2(2) == 4;
    hide Pow2;
    var n: nat :| Rounded(3) == Pow2(n);
    if n < 2 { Pow2Monotone(n, 1); } else { Pow2Monotone(2, n); }
  }

  /** On the sending side the check does not stop at the data: a fourth byte is decoded although three were encoded. */
  method DecodePastTheData(value: seq<byte>) returns (success: bool, read: seq<byte>, size: nat)
    requires |value| == 3
    ensures success && |read| == 4 && size == 3
  {
    hide Rounded, IsPow2;
    var m := new Message(0, true);
    var ok := m.Encode(value, true);
    RoundedOfThree();
    size := m.dataLength;
    success, read := m.Decode(4);
  }
}
