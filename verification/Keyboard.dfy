/** Keyboard input (library/ps2/ps2-keyboard.cxx): a queue of bytes and its decoder. */
module Keyboard {

  type Byte = b: nat | b < 0x100

  // A key that has gone down or up; extended keys have a prefix.
  datatype Event = Event(extended: bool, code: Byte, released: bool)

  datatype InputResult = InputResult(scanCode: nat, released: bool, mapIndex: nat)

  // ---- the encoding ----

  function ScanCode(e: Event): nat {
    (if e.extended then 0xE000 else 0) + e.code
  }

  function Encode(e: Event): (s: seq<Byte>)
    ensures 1 <= |s| <= 3
  {
    (if e.extended then [0xE0] else []) + (if e.released then [0xF0] else []) + [e.code]
  }

  function EncodeAll(events: seq<Event>): seq<Byte> {
    if events == [] then [] else Encode(events[0]) + EncodeAll(events[1..])
  }

  // There are as many bytes as the decoder will take.
  predicate CanDecode(s: seq<Byte>) {
    |s| >= 1 && (s[0] == 0xE0 || s[0] == 0xF0 ==> |s| >= 2 && (s[1] == 0xF0 ==> |s| >= 3))
  }

  // How many bytes the decoder takes.
  function Length(s: seq<Byte>): (n: nat)
    requires CanDecode(s)
    ensures 1 <= n <= 3 && n <= |s|
  {
    if s[0] != 0xE0 && s[0] != 0xF0 then 1 else if s[1] != 0xF0 then 2 else 3
  }

  // What it makes of them; a code is added to the prefix bit by bit, which is the same as a sum.
  function Decode(s: seq<Byte>): (nat, bool)
    requires CanDecode(s)
  {
    if s[0] != 0xE0 && s[0] != 0xF0 then (s[0], false)
    else
      var prefix: nat := if s[0] == 0xE0 then 0xE000 else 0;
      if s[1] != 0xF0 then (prefix + s[1], s[0] == 0xF0) else (prefix + s[2], true)
  }

  // Up to two prefixes and a code: E0 stands for an extended key, F0 for one that goes up.
  predicate IsDecoded(s: seq<Byte>, scanCode: nat, released: bool, taken: nat) {
    && |s| >= taken > 0
    && (if s[0] != 0xE0 && s[0] != 0xF0 then taken == 1 else |s| >= 2 && taken == if s[1] == 0xF0 then 3 else 2)
    && released == (taken == 3 || s[0] == 0xF0)
    && scanCode == s[taken - 1] as nat + if s[0] == 0xE0 then 0xE000 else 0
  }

  lemma DecodeIs(s: seq<Byte>)
    requires CanDecode(s)
    ensures IsDecoded(s, Decode(s).0, Decode(s).1, Length(s))
  {
  }

  // A code that a decoder cannot take for a prefix where it stands.
  predicate WellFormed(e: Event) {
    (e.code == 0xE0 ==> e.extended || e.released) && (e.code == 0xF0 ==> e.extended && e.released)
  }

  // Exactly the well-formed events come back, whatever follows them.
  lemma DecodesIff(e: Event)
    ensures (forall rest :: ComesBack(e, rest)) <==> WellFormed(e)
  {
    if !WellFormed(e) {
      assert !ComesBack(e, [1, 1]);
    }
  }

  predicate ComesBack(e: Event, rest: seq<Byte>) {
    var s := Encode(e) + rest;
    CanDecode(s) && Decode(s) == (ScanCode(e), e.released) && Length(s) == |Encode(e)|
  }

  // ---- shift and caps lock ----

  predicate IsShift(scanCode: nat) {
    scanCode == 0x12 || scanCode == 0x59
  }

  // The keys that are held or locked after a history of events.
  function ShiftAfter(events: seq<Event>): bool {
    if events == [] then false
    else
      var e := events[|events| - 1];
      if IsShift(ScanCode(e)) then !e.released else ShiftAfter(events[..|events| - 1])
  }

  function CapsAfter(events: seq<Event>): bool {
    if events == [] then false
    else
      var e := events[|events| - 1];
      if ScanCode(e) == 0x58 && !e.released then !CapsAfter(events[..|events| - 1])
      else CapsAfter(events[..|events| - 1])
  }

  function MapIndex(shift: bool, caps: bool): nat {
    (if shift then 1 else 0) + (if caps then 2 else 0)
  }

  // A shift key is down exactly if the last event of one was a press.
  lemma {:induction false} ShiftAfterIff(events: seq<Event>)
    ensures ShiftAfter(events) <==> exists k :: LastShift(events, k) && !events[k].released
  {
    if events != [] {
      var n := |events| - 1;
      var before := events[..n];
      ShiftAfterIff(before);
      if IsShift(ScanCode(events[n])) {
        assert LastShift(events, n);
      } else {
        assert forall k :: 0 <= k < n ==> (LastShift(events, k) <==> LastShift(before, k));
      }
    }
  }

  // Event `k` is the last one of a shift key.
  predicate LastShift(events: seq<Event>, k: int) {
    && 0 <= k < |events| && (ScanCode(events[k]) == 0x12 || ScanCode(events[k]) == 0x59)
    && forall i :: k < i < |events| ==> ScanCode(events[i]) != 0x12 && ScanCode(events[i]) != 0x59
  }

  // The places where the caps lock key goes down.
  function CapsPresses(events: seq<Event>): set<nat> {
    set k: nat | k < |events| && ScanCode(events[k]) == 0x58 && !events[k].released
  }

  lemma OneMorePress(events: seq<Event>)
    requires events != []
    ensures
      var n := |events| - 1;
      && n !in CapsPresses(events[..n])
      && CapsPresses(events)
         == CapsPresses(events[..n]) + if ScanCode(events[n]) == 0x58 && !events[n].released then {n} else {}
  {
    hide ScanCode;
  }

  // Caps lock is on exactly if its key has gone down an odd number of times.
  lemma {:induction false} CapsAfterIff(events: seq<Event>)
    ensures CapsAfter(events) <==> |CapsPresses(events)| % 2 == 1
  {
    hide CapsPresses, ScanCode;
    if events == [] {
      NoPress();
    } else {
      CapsAfterIff(events[..|events| - 1]);
      OneMorePress(events);
    }
  }

  lemma NoPress()
    ensures CapsPresses([]) == {}
  {
  }

  // What the decoder should report for the last of the events.
  function Report(history: seq<Event>): InputResult
    requires history != []
  {
    var e := history[|history| - 1];
    InputResult(ScanCode(e), e.released, MapIndex(ShiftAfter(history), CapsAfter(history)))
  }

  // ---- bytes that arrive while the decoder waits ----

  function Concat(wire: seq<seq<Byte>>): seq<Byte> {
    if wire == [] then [] else wire[0] + Concat(wire[1..])
  }

  // Before every read some bytes may arrive; there is always one to read, and never more than 128.
  predicate Flows(length: nat, wire: seq<seq<Byte>>)
    decreases |wire|
  {
    wire == [] || (1 <= length + |wire[0]| <= 0x80 && Flows(length + |wire[0]| - 1, wire[1..]))
  }

  class Keyboard {
    const buffer: array<Byte>
    var length: nat
    var shiftPressed: bool
    var capsLockPressed: bool
    var mapIndex: nat

    constructor ()
      ensures Valid() && Queue() == [] && fresh(buffer)
      ensures !shiftPressed && !capsLockPressed
    {
      buffer := new Byte[0x80];
      length, shiftPressed, capsLockPressed, mapIndex := 0, false, false, 0;
    }

    predicate Valid()
      reads this
    {
      && buffer.Length == 0x80 && length <= 0x80
      && mapIndex == if capsLockPressed then if shiftPressed then 3 else 2 else if shiftPressed then 1 else 0
    }

    // The bytes in the order of their arrival: the last one is at the front of the buffer.
    function Queue(): (q: seq<Byte>)
      requires Valid()
      reads this, buffer
      ensures |q| == length
    {
      seq(length, i requires 0 <= i < length reads this, buffer requires Valid() => buffer[length - 1 - i])
    }

    // The code also cuts a length above 128; while it stays below, that does nothing.
    method IrqHandler(value: Byte)
      requires Valid() && length < 0x80
      modifies this`length, buffer
      ensures Valid() && Queue() == old(Queue()) + [value]
    {
      ShiftUp();
      buffer[0] := value;
      length := length + 1;
    }

    // Makes room at the front.
    method ShiftUp()
      requires Valid() && length < 0x80
      modifies buffer
      ensures forall k :: 0 < k <= length ==> buffer[k] == old(buffer[k - 1])
    {
      var i := length;
      while i > 0
        invariant 0 <= i <= length
        invariant forall k :: 0 <= k < i ==> buffer[k] == old(buffer[k])
        invariant forall k :: i < k <= length ==> buffer[k] == old(buffer[k - 1])
      {
        buffer[i] := buffer[i - 1];
        i := i - 1;
      }
    }

    method ReadBufferLastByte() returns (value: Byte)
      requires Valid() && length > 0
      modifies this`length
      ensures Valid() && old(Queue()) == [value] + Queue()
    {
      length := length - 1;
      value := buffer[length];
    }

    // A batch of interrupts while the decoder waits.
    method Arrive(batch: seq<Byte>)
      requires Valid() && length + |batch| <= 0x80
      modifies this`length, buffer
      ensures Valid() && Queue() == old(Queue()) + batch
    {
      assert old(Queue()) + batch[..0] == old(Queue());
      for i := 0 to |batch|
        invariant Valid() && Queue() == old(Queue()) + batch[..i]
      {
        IrqHandler(batch[i]);
        assert batch[..i + 1] == batch[..i] + [batch[i]];
      }
      assert batch[..|batch|] == batch;
    }

    // The bytes that are there or will come.
    ghost function Pending(wire: seq<seq<Byte>>): seq<Byte>
      requires Valid()
      reads this, buffer
    {
      Queue() + Concat(wire)
    }

    // One read: bytes arrive, and the oldest one is taken.
    method Receive(wire: seq<seq<Byte>>) returns (value: Byte)
      requires Valid() && wire != [] && Flows(length, wire)
      modifies this`length, buffer
      ensures Valid() && Flows(length, wire[1..])
      ensures old(Pending(wire)) == [value] + Pending(wire[1..])
      ensures old(Pending(wire))[0] == value && old(Pending(wire))[1..] == Pending(wire[1..])
    {
      ghost var rest := Concat(wire[1..]);
      assert Queue() + (wire[0] + rest) == (Queue() + wire[0]) + rest;
      Arrive(wire[0]);
      ghost var here := Queue();
      value := ReadBufferLastByte();
      assert here + rest == [value] + (Queue() + rest);
    }

    // Decodes one event from the bytes that are there or will come, and takes nothing else.
    method GetInput(wire: seq<seq<Byte>>) returns (result: InputResult, taken: nat)
      requires Valid() && Flows(length, wire) && CanDecode(Pending(wire)) && |wire| >= Length(Pending(wire))
      modifies this, buffer
      ensures Valid() && taken == Length(old(Pending(wire)))
      ensures Flows(length, wire[taken..]) && Pending(wire[taken..]) == old(Pending(wire))[taken..]
      ensures (result.scanCode, result.released) == Decode(old(Pending(wire)))
      ensures IsDecoded(old(Pending(wire)), result.scanCode, result.released, taken)
      ensures shiftPressed
        == if result.scanCode == 0x12 || result.scanCode == 0x59 then !result.released else old(shiftPressed)
      ensures capsLockPressed
        == if result.scanCode == 0x58 && !result.released then !old(capsLockPressed) else old(capsLockPressed)
      ensures result.mapIndex == mapIndex
    {
      hide Flows, Concat, Decode, Length, IsDecoded, CanDecode, EncodeAll;
      DecodeIs(Pending(wire));
      var scanCode, released := 0, false;
      scanCode, released, taken := DecodeBytes(wire);
      UpdateKeys(scanCode, released);
      result := InputResult(scanCode, released, mapIndex);
    }

    method DecodeBytes(wire: seq<seq<Byte>>) returns (scanCode: nat, released: bool, taken: nat)
      requires Valid() && Flows(length, wire) && CanDecode(Pending(wire)) && |wire| >= Length(Pending(wire))
      modifies this`length, buffer
      ensures Valid() && taken == Length(old(Pending(wire)))
      ensures Flows(length, wire[taken..]) && Pending(wire[taken..]) == old(Pending(wire))[taken..]
      ensures (scanCode, released) == Decode(old(Pending(wire)))
    {
      hide Flows, Concat, Queue, Pending, MapIndex;
      ghost var all := Pending(wire);
      scanCode, released := 0, false;
      var value := Receive(wire);
      if value == 0xE0 {
        scanCode := 0xE000;
      } else if value == 0xF0 {
        released := true;
      } else {
        return value, false, 1;
      }
      var code: nat, last: bool;
      code, last, taken := DecodeRest(wire[1..]);
      assert wire[1..][taken..] == wire[1 + taken..] && all[1..][taken..] == all[1 + taken..];
      scanCode, released, taken := scanCode + code, released || last, 1 + taken;
    }

    // Behind a prefix, a key that goes up has one more.
    method DecodeRest(wire: seq<seq<Byte>>) returns (code: nat, released: bool, taken: nat)
      requires Valid() && Flows(length, wire) && Pending(wire) != [] && wire != []
      requires Pending(wire)[0] == 0xF0 ==> |Pending(wire)| >= 2 && |wire| >= 2
      modifies this`length, buffer
      ensures
        var all := old(Pending(wire));
        && all != []
        && if all[0] == 0xF0 then |all| >= 2 && taken == 2 && released && code == all[1]
           else taken == 1 && !released && code == all[0]
      ensures Valid() && taken <= |wire| && taken <= |old(Pending(wire))|
      ensures Flows(length, wire[taken..]) && Pending(wire[taken..]) == old(Pending(wire))[taken..]
    {
      hide Flows, Concat, Queue, Pending, MapIndex;
      ghost var all := Pending(wire);
      var value := Receive(wire);
      if value != 0xF0 {
        return value, false, 1;
      }
      code := Receive(wire[1..]);
      assert wire[1..][1..] == wire[2..] && all[1..][1..] == all[2..];
      released, taken := true, 2;
    }

    method UpdateKeys(scanCode: nat, released: bool)
      requires Valid()
      modifies this`shiftPressed, this`capsLockPressed, this`mapIndex
      ensures Valid()
      ensures shiftPressed == if scanCode == 0x12 || scanCode == 0x59 then !released else old(shiftPressed)
      ensures capsLockPressed == if scanCode == 0x58 && !released then !old(capsLockPressed) else old(capsLockPressed)
    {
      var shiftAction := scanCode == 0x12 || scanCode == 0x59;
      var capsLockAction := scanCode == 0x58 && !released;
      if shiftAction || capsLockAction {
        if shiftAction {
          shiftPressed := !released;
        } else {
          capsLockPressed := !capsLockPressed;
        }
        if !shiftPressed && !capsLockPressed {
          mapIndex := 0;
        } else if shiftPressed && !capsLockPressed {
          mapIndex := 1;
        } else if !shiftPressed && capsLockPressed {
          mapIndex := 2;
        } else {
          mapIndex := 3;
        }
      }
    }
  }
  // ---- whole streams ----

  // What the reports for the events from the `i`th on are, given all of them.
  function Reports(events: seq<Event>, i: nat): (r: seq<InputResult>)
    requires i <= |events|
    ensures |r| == |events| - i && forall k :: 0 <= k < |r| ==> r[k] == Report(events[..i + k + 1])
  {
    seq(|events| - i, k requires 0 <= k < |events| - i => Report(events[..i + k + 1]))
  }

  lemma FirstOfAll(events: seq<Event>)
    requires events != [] && WellFormed(events[0])
    ensures
      var s := EncodeAll(events);
      && CanDecode(s) && Decode(s) == (ScanCode(events[0]), events[0].released)
      && Length(s) == |Encode(events[0])| && s[Length(s)..] == EncodeAll(events[1..])
  {
    DecodesIff(events[0]);
    assert ComesBack(events[0], EncodeAll(events[1..]));
  }

  lemma HistoryStep(events: seq<Event>, i: nat)
    requires i < |events|
    ensures
      var e := events[i];
      && ShiftAfter(events[..i + 1]) == (if IsShift(ScanCode(e)) then !e.released else ShiftAfter(events[..i]))
      && CapsAfter(events[..i + 1])
         == (if ScanCode(e) == 0x58 && !e.released then !CapsAfter(events[..i]) else CapsAfter(events[..i]))
  {
    assert events[..i + 1][..i] == events[..i];
  }

  // However the bytes of well-formed events arrive, the same events come back, in order, each with
  // the map that the history of shift and caps lock asks for, and no byte is left.
  method ReadAll(keyboard: Keyboard, ghost events: seq<Event>, count: nat, bytes: seq<seq<Byte>>)
    returns (results: seq<InputResult>)
    requires keyboard.Valid() && keyboard.Queue() == []
    requires !keyboard.shiftPressed && !keyboard.capsLockPressed
    requires count == |events| && forall i :: 0 <= i < |events| ==> WellFormed(events[i])
    requires Concat(bytes) == EncodeAll(events) && |bytes| == |EncodeAll(events)| && Flows(0, bytes)
    modifies keyboard, keyboard.buffer
    ensures keyboard.Valid() && keyboard.Queue() == []
    ensures results == Reports(events, 0)
    ensures |results| == |events| && forall k :: 0 <= k < |events| ==>
      && results[k].scanCode == (if events[k].extended then 0xE000 else 0) + events[k].code
      && results[k].released == events[k].released
      && results[k].mapIndex
         == (if ShiftAfter(events[..k + 1]) then 1 else 0) + if CapsAfter(events[..k + 1]) then 2 else 0
  {
    hide Flows, Concat, EncodeAll, Decode, Length, CanDecode, WellFormed, Report, Reports, ShiftAfter, CapsAfter,
      Reported;
    results := [];
    var wire := bytes;
    ReadingStarts(events, wire);
    for i := 0 to count
      invariant keyboard.Valid() && Flows(keyboard.length, wire)
      invariant keyboard.Pending(wire) == EncodeAll(events[i..]) && |wire| == |EncodeAll(events[i..])|
      invariant keyboard.shiftPressed == ShiftAfter(events[..i]) && keyboard.capsLockPressed == CapsAfter(events[..i])
      invariant Reported(results, events, i)
    {
      assert events[i..][1..] == events[i + 1..];
      FirstOfAll(events[i..]);
      HistoryStep(events, i);
      ghost var before := results;
      var result, taken := keyboard.GetInput(wire);
      results := results + [result];
      wire := wire[taken..];
      ReportedStep(before, events, i, result);
    }
    AllReported(results, events);
    NothingLeft(events[count..]);
  }

  // The results are the reports of the first `i` events.
  ghost predicate Reported(results: seq<InputResult>, events: seq<Event>, i: nat) {
    i <= |events| && |results| == i && forall k :: 0 <= k < i ==> results[k] == Report(events[..k + 1])
  }

  lemma ReadingStarts(events: seq<Event>, wire: seq<seq<Byte>>)
    ensures [] + Concat(wire) == Concat(wire) && events[0..] == events
    ensures !ShiftAfter(events[..0]) && !CapsAfter(events[..0]) && Reported([], events, 0)
  {
  }

  lemma ReportedStep(results: seq<InputResult>, events: seq<Event>, i: nat, result: InputResult)
    requires Reported(results, events, i) && i < |events|
    requires result.scanCode == ScanCode(events[i]) && result.released == events[i].released
    requires result.mapIndex == MapIndex(ShiftAfter(events[..i + 1]), CapsAfter(events[..i + 1]))
    ensures Reported(results + [result], events, i + 1)
  {
    hide ShiftAfter, CapsAfter;
    assert events[..i + 1][i] == events[i];
  }

  lemma AllReported(results: seq<InputResult>, events: seq<Event>)
    requires Reported(results, events, |events|)
    ensures results == Reports(events, 0)
    ensures |results| == |events| && forall k :: 0 <= k < |events| ==>
      && results[k].scanCode == (if events[k].extended then 0xE000 else 0) + events[k].code
      && results[k].released == events[k].released
      && results[k].mapIndex
         == (if ShiftAfter(events[..k + 1]) then 1 else 0) + if CapsAfter(events[..k + 1]) then 2 else 0
  {
    hide Report, ShiftAfter, CapsAfter;
    forall k | 0 <= k < |events|
      ensures Report(events[..k + 1])
        == InputResult((if events[k].extended then 0xE000 else 0) + events[k].code, events[k].released,
                       (if ShiftAfter(events[..k + 1]) then 1 else 0) + if CapsAfter(events[..k + 1]) then 2 else 0)
    {
      ReportIs(events[..k + 1]);
      assert events[..k + 1][k] == events[k];
    }
  }

  lemma ReportIs(history: seq<Event>)
    requires history != []
    ensures
      var e := history[|history| - 1];
      Report(history)
        == InputResult((if e.extended then 0xE000 else 0) + e.code, e.released,
                       (if ShiftAfter(history) then 1 else 0) + if CapsAfter(history) then 2 else 0)
  {
  }

  lemma NothingLeft(events: seq<Event>)
    requires events == []
    ensures EncodeAll(events) == []
  {
  }
}
