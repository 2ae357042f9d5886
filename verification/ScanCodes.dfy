/** Keyboard scan codes: the three state machines that turn bytes into key packets, against the
    encoding of key events.  The keypoint tables are parameters. */
module ScanCodes {
  import opened Common

  type byte = x: int | 0 <= x < 0x100

  datatype Packet = Packet(scancode: byte, keypoint: byte, pressed: bool)

  /** The keypoints of plain and of extended codes, of Print Screen and of Pause. */
  datatype Keypoints = Keypoints(plain: byte -> byte, extended: byte -> byte, printScreen: byte, pause: byte)

  /** A key goes down or up.  Pause has no release. */
  datatype KeyEvent = Plain(code: byte, pressed: bool) | Extended(code: byte, pressed: bool) | PrintScreen(pressed: bool) | Pause

  datatype Mode = Default | Extended1 | Extended2Press | Extended2Release | Extended3

  /** The static variables of a handler. */
  datatype State = State(mode: Mode, bytesRead: nat, onError: bool, onRelease: bool)

  const START := State(Default, 0, false, false)

  /** One more byte of a fixed sequence: it must match, and the last one completes the packet.  After a
      mismatch the rest is swallowed. */
  function Follow(s: State, expected: seq<byte>, b: byte, packet: Packet): (State, Option<Packet>)
    requires s.bytesRead < |expected|
  {
    var good := b == expected[s.bytesRead] && !s.onError;
    if s.bytesRead + 1 == |expected| then (START, if good then Some(packet) else None)
    else (s.(bytesRead := s.bytesRead + 1, onError := !good), None)
  }

  // ---------- scan code set 1 ----------

  const PRINT_1: seq<byte> := [0xE0, 0x2A, 0xE0, 0x37]
  const PRINT_RELEASE_1: seq<byte> := [0xE0, 0xB7, 0xE0, 0xAA]
  const PAUSE_1: seq<byte> := [0xE1, 0x1D, 0x45, 0xE1, 0x9D, 0xC5]

  /** States in which the handler of set 1 stays within its tables. */
  predicate InTables1(s: State) {
    && !s.onRelease && (s.mode in {Default, Extended1} ==> !s.onError)
    && match s.mode
       case Default => s.bytesRead == 0
       case Extended1 => s.bytesRead == 1
       case Extended2Press => 2 <= s.bytesRead < |PRINT_1|
       case Extended2Release => 2 <= s.bytesRead < |PRINT_RELEASE_1|
       case Extended3 => 1 <= s.bytesRead < |PAUSE_1|
  }

  function Step1(k: Keypoints, s: State, b: byte): (State, Option<Packet>)
    requires InTables1(s)
  {
    match s.mode
    case Default =>
      if b == 0xE0 then (s.(mode := Extended1, bytesRead := 1), None)
      else if b == 0xE1 then (s.(mode := Extended3, bytesRead := 1), None)
      else (s, Some(Packet(b, k.plain(b), b < 0x80)))
    case Extended1 =>
      if b == PRINT_1[1] then (s.(mode := Extended2Press, bytesRead := 2), None)
      else if b == PRINT_RELEASE_1[1] then (s.(mode := Extended2Release, bytesRead := 2), None)
      else (s.(mode := Default, bytesRead := 0), Some(Packet(b, k.extended(b), b < 0x80)))
    case Extended2Press => Follow(s, PRINT_1, b, Packet(b, k.printScreen, true))
    case Extended2Release => Follow(s, PRINT_RELEASE_1, b, Packet(b, k.printScreen, false))
    case Extended3 => Follow(s, PAUSE_1, b, Packet(b, k.pause, true))
  }

  function Run1(k: Keypoints, s: State, bytes: seq<byte>): (State, seq<Packet>)
    requires InTables1(s)
    decreases |bytes|
  {
    if bytes == [] then (s, [])
    else
      var step := Step1(k, s, bytes[0]);
      StaysInTables1(k, s, bytes[0]);
      var rest := Run1(k, step.0, bytes[1..]);
      (rest.0, Created(step.1) + rest.1)
  }

  function Created(p: Option<Packet>): seq<Packet> {
    if p.Some? then [p.value] else []
  }

  /** Every byte keeps the handler within its tables; a sequence that goes on is one byte longer. */
  lemma StaysInTables1(k: Keypoints, s: State, b: byte)
    requires InTables1(s)
    ensures var s' := Step1(k, s, b).0;
            InTables1(s') && (s'.mode == Default ==> s' == START) && (s.mode != Default && s'.mode != Default ==> s'.bytesRead == s.bytesRead + 1)
  {
  }

  /** Whatever the bytes, the handler is back in its start state within six bytes of leaving it. */
  lemma {:induction false} BackWithinSix1(k: Keypoints, s: State, bytes: seq<byte>)
    requires InTables1(s) && s.mode != Default && |bytes| + s.bytesRead >= 6
    ensures exists n: nat :: n <= |bytes| && n + s.bytesRead <= 6 && Run1(k, s, bytes[..n]).0 == START
    decreases |bytes|
  {
    var s' := Step1(k, s, bytes[0]).0;
    StaysInTables1(k, s, bytes[0]);
    if s'.mode == Default {
      assert bytes[..1][1..] == [];
      assert Run1(k, s, bytes[..1]).0 == START;
    } else {
      BackWithinSix1(k, s', bytes[1..]);
      var n: nat :| n <= |bytes[1..]| && n + s'.bytesRead <= 6 && Run1(k, s', bytes[1..][..n]).0 == START;
      assert bytes[..n + 1][1..] == bytes[1..][..n];
      assert Run1(k, s, bytes[..n + 1]).0 == START;
    }
  }

  /** The events that set 1 can express: those whose bytes do not collide with prefixes. */
  predicate Expressible1(e: KeyEvent) {
    match e
    case Plain(code, pressed) => code < 0x80 && (pressed || (code != 0x60 && code != 0x61))
    case Extended(code, pressed) => code < 0x80 && if pressed then code != 0x2A else code != 0x37
    case _ => true
  }

  function Encode1(e: KeyEvent): seq<byte>
    requires Expressible1(e)
  {
    match e
    case Plain(code, pressed) => [if pressed then code else code + 0x80]
    case Extended(code, pressed) => [0xE0, if pressed then code else code + 0x80]
    case PrintScreen(pressed) => if pressed then PRINT_1 else PRINT_RELEASE_1
    case Pause => PAUSE_1
  }

  /** The packet of an event: its last byte, its keypoint and whether the key went down. */
  function PacketOf1(k: Keypoints, e: KeyEvent): Packet
    requires Expressible1(e)
  {
    var last := Encode1(e)[|Encode1(e)| - 1];
    match e
    case Plain(_, pressed) => Packet(last, k.plain(last), pressed)
    case Extended(_, pressed) => Packet(last, k.extended(last), pressed)
    case PrintScreen(pressed) => Packet(last, k.printScreen, pressed)
    case Pause => Packet(last, k.pause, true)
  }

  lemma RunFrom1(k: Keypoints, s: State, b: byte, rest: seq<byte>)
    requires InTables1(s)
    ensures var step := Step1(k, s, b);
            InTables1(step.0) && Run1(k, s, [b] + rest).0 == Run1(k, step.0, rest).0
            && Run1(k, s, [b] + rest).1 == (if step.1.Some? then [step.1.value] else []) + Run1(k, step.0, rest).1
    ensures var step := Step1(k, s, b);
            step.1.None? ==> Run1(k, s, [b] + rest).1 == Run1(k, step.0, rest).1
  {
    StaysInTables1(k, s, b);
    assert ([b] + rest)[1..] == rest;
    assert [] + Run1(k, Step1(k, s, b).0, rest).1 == Run1(k, Step1(k, s, b).0, rest).1;
  }

  /** A fixed sequence, from position n on. */
  lemma SequenceDecodes1(k: Keypoints, s: State, expected: seq<byte>, packet: Packet, rest: seq<byte>)
    requires InTables1(s) && !s.onError && s.bytesRead < |expected|
    requires s.mode == Extended2Press ==> expected == PRINT_1 && packet == Packet(0x37, k.printScreen, true)
    requires s.mode == Extended2Release ==> expected == PRINT_RELEASE_1 && packet == Packet(0xAA, k.printScreen, false)
    requires s.mode == Extended3 ==> expected == PAUSE_1 && packet == Packet(0xC5, k.pause, true)
    requires s.mode in {Extended2Press, Extended2Release, Extended3}
    ensures Run1(k, s, expected[s.bytesRead..] + rest) == (Run1(k, START, rest).0, [packet] + Run1(k, START, rest).1)
  {
    hide Run1;
    FixedOutcome1(k, s, expected[s.bytesRead..], rest);
  }

  lemma PrintDecodes1(k: Keypoints, pressed: bool, rest: seq<byte>)
    ensures Run1(k, START, Encode1(PrintScreen(pressed)) + rest)
            == (Run1(k, START, rest).0, [PacketOf1(k, PrintScreen(pressed))] + Run1(k, START, rest).1)
  {
    var bytes := Encode1(PrintScreen(pressed));
    var s1 := Step1(k, START, 0xE0).0;
    assert bytes + rest == [0xE0] + ([bytes[1]] + (bytes[2..] + rest));
    hide Run1;
    RunFrom1(k, START, 0xE0, [bytes[1]] + (bytes[2..] + rest));
    RunFrom1(k, s1, bytes[1], bytes[2..] + rest);
    SequenceDecodes1(k, Step1(k, s1, bytes[1]).0, bytes, PacketOf1(k, PrintScreen(pressed)), rest);
  }

  lemma ExtendedDecodes1(k: Keypoints, code: byte, pressed: bool, rest: seq<byte>)
    requires Expressible1(Extended(code, pressed))
    ensures Run1(k, START, Encode1(Extended(code, pressed)) + rest)
            == (Run1(k, START, rest).0, [PacketOf1(k, Extended(code, pressed))] + Run1(k, START, rest).1)
  {
    var b := Encode1(Extended(code, pressed))[1];
    assert Encode1(Extended(code, pressed)) + rest == [0xE0] + ([b] + rest);
    hide Run1;
    RunFrom1(k, START, 0xE0, [b] + rest);
    RunFrom1(k, Step1(k, START, 0xE0).0, b, rest);
  }

  /** The bytes of an event are decoded to its packet, whatever follows. */
  lemma EventDecodes1(k: Keypoints, e: KeyEvent, rest: seq<byte>)
    requires Expressible1(e)
    ensures Run1(k, START, Encode1(e) + rest) == (Run1(k, START, rest).0, [PacketOf1(k, e)] + Run1(k, START, rest).1)
  {
    hide Run1;
    match e
    case Plain(code, pressed) =>
      RunFrom1(k, START, Encode1(e)[0], rest);
    case Extended(code, pressed) => ExtendedDecodes1(k, code, pressed, rest);
    case PrintScreen(pressed) => PrintDecodes1(k, pressed, rest);
    case Pause =>
      assert PAUSE_1 + rest == [0xE1] + (PAUSE_1[1..] + rest);
      RunFrom1(k, START, 0xE1, PAUSE_1[1..] + rest);
      SequenceDecodes1(k, Step1(k, START, 0xE1).0, PAUSE_1, PacketOf1(k, e), rest);
  }

  function EncodeAll1(events: seq<KeyEvent>): seq<byte>
    requires forall e :: e in events ==> Expressible1(e)
  {
    if events == [] then [] else Encode1(events[0]) + EncodeAll1(events[1..])
  }

  function PacketsOf1(k: Keypoints, events: seq<KeyEvent>): seq<Packet>
    requires forall e :: e in events ==> Expressible1(e)
  {
    if events == [] then [] else [PacketOf1(k, events[0])] + PacketsOf1(k, events[1..])
  }

  /** Decoding inverts encoding: the handler emits the packets of the events, in order, and ends in
      its start state. */
  lemma {:induction false} DecodesSet1(k: Keypoints, events: seq<KeyEvent>)
    requires forall e :: e in events ==> Expressible1(e)
    ensures Run1(k, START, EncodeAll1(events)) == (START, PacketsOf1(k, events))
    decreases |events|
  {
    if events != [] {
      EventDecodes1(k, events[0], EncodeAll1(events[1..]));
      DecodesSet1(k, events[1..]);
    }
  }

  // ---------- any bytes at all ----------

  /** The fixed sequence that the handler of set 1 is in, and the packet that completes it. */
  function Fixed1(k: Keypoints, mode: Mode): (seq<byte>, Packet) {
    match mode
    case Extended2Press => ([0xE0, 0x2A, 0xE0, 0x37], Packet(0x37, k.printScreen, true))
    case Extended2Release => ([0xE0, 0xB7, 0xE0, 0xAA], Packet(0xAA, k.printScreen, false))
    case _ => ([0xE1, 0x1D, 0x45, 0xE1, 0x9D, 0xC5], Packet(0xC5, k.pause, true))
  }

  /** As many bytes as are left of a fixed sequence take the handler back to its start; they give a packet
      if and only if all of them match. */
  lemma {:induction false} FixedOutcome1(k: Keypoints, s: State, bytes: seq<byte>, rest: seq<byte>)
    requires InTables1(s) && s.mode in {Extended2Press, Extended2Release, Extended3}
    requires |bytes| == |Fixed1(k, s.mode).0| - s.bytesRead
    ensures var (expected, packet) := Fixed1(k, s.mode);
            Run1(k, s, bytes + rest)
            == (Run1(k, START, rest).0,
                (if !s.onError && bytes == expected[s.bytesRead..] then [packet] else []) + Run1(k, START, rest).1)
    decreases |bytes|
  {
    hide Run1;
    var expected := Fixed1(k, s.mode).0;
    var b, more := bytes[0], bytes[1..];
    assert bytes == [b] + more && bytes + rest == [b] + (more + rest);
    assert expected[s.bytesRead..] == [expected[s.bytesRead]] + expected[s.bytesRead + 1..];
    RunFrom1(k, s, b, more + rest);
    if |bytes| > 1 {
      FixedOutcome1(k, Step1(k, s, b).0, more, rest);
    } else {
      assert more + rest == rest;
    }
  }

  /** What set 1 makes of any stream, from the start of a key: one byte, two behind 0xE0, four behind the
      prefixes of Print Screen, whose last two must match, or six behind 0xE1, which must all match. */
  lemma StreamOutcome1(k: Keypoints, b: byte, rest: seq<byte>)
    ensures b != 0xE0 && b != 0xE1 ==>
              Run1(k, START, [b] + rest) == (Run1(k, START, rest).0, [Packet(b, k.plain(b), b < 0x80)] + Run1(k, START, rest).1)
    ensures b != 0x2A && b != 0xB7 ==>
              Run1(k, START, [0xE0, b] + rest) == (Run1(k, START, rest).0, [Packet(b, k.extended(b), b < 0x80)] + Run1(k, START, rest).1)
  {
    if b != 0xE0 && b != 0xE1 {
      RunFrom1(k, START, b, rest);
    }
    if b != 0x2A && b != 0xB7 {
      assert [0xE0, b] + rest == [0xE0] + ([b] + rest);
      RunFrom1(k, START, 0xE0, [b] + rest);
      RunFrom1(k, Step1(k, START, 0xE0).0, b, rest);
    }
  }

  /** Behind the two bytes that begin Print Screen. */
  lemma PrintOutcome1(k: Keypoints, pressed: bool, b: seq<byte>, rest: seq<byte>)
    requires |b| == 2
    ensures Run1(k, START, [0xE0, if pressed then 0x2A else 0xB7] + b + rest)
            == (Run1(k, START, rest).0,
                (if b == [0xE0, if pressed then 0x37 else 0xAA]
                 then [Packet(if pressed then 0x37 else 0xAA, k.printScreen, pressed)] else []) + Run1(k, START, rest).1)
  {
    hide Run1;
    var c: byte := if pressed then 0x2A else 0xB7;
    var s1 := State(Extended1, 1, false, false);
    var s2 := State(if pressed then Extended2Press else Extended2Release, 2, false, false);
    assert [0xE0, c] + b + rest == [0xE0] + ([c] + (b + rest));
    RunFrom1(k, START, 0xE0, [c] + (b + rest));
    RunFrom1(k, s1, c, b + rest);
    FixedOutcome1(k, s2, b, rest);
    assert Fixed1(k, s2.mode).0[2..] == [0xE0, if pressed then 0x37 else 0xAA];
  }

  /** Behind the byte that begins Pause. */
  lemma PauseOutcome1(k: Keypoints, b: seq<byte>, rest: seq<byte>)
    requires |b| == 5
    ensures Run1(k, START, [0xE1] + b + rest)
            == (Run1(k, START, rest).0,
                (if b == [0x1D, 0x45, 0xE1, 0x9D, 0xC5] then [Packet(0xC5, k.pause, true)] else []) + Run1(k, START, rest).1)
  {
    hide Run1;
    var s1 := State(Extended3, 1, false, false);
    assert [0xE1] + b + rest == [0xE1] + (b + rest);
    RunFrom1(k, START, 0xE1, b + rest);
    FixedOutcome1(k, s1, b, rest);
    assert Fixed1(k, Extended3).0[1..] == [0x1D, 0x45, 0xE1, 0x9D, 0xC5];
  }

  /** Events whose packets share the last byte have different keypoints. */
  predicate KeypointsDiffer1(k: Keypoints, keys: set<KeyEvent>)
    requires forall e :: e in keys ==> Expressible1(e)
  {
    forall e, f :: e in keys && f in keys && e != f && PacketOf1(k, e).scancode == PacketOf1(k, f).scancode ==>
      PacketOf1(k, e).keypoint != PacketOf1(k, f).keypoint
  }

  /** If the keypoints tell such keys apart, different event sequences are decoded differently. */
  lemma {:induction false} EventsAreTold1(k: Keypoints, keys: set<KeyEvent>, a: seq<KeyEvent>, b: seq<KeyEvent>)
    requires (forall e :: e in keys ==> Expressible1(e)) && KeypointsDiffer1(k, keys)
    requires (forall e :: e in a ==> e in keys) && forall e :: e in b ==> e in keys
    ensures Run1(k, START, EncodeAll1(a)) == Run1(k, START, EncodeAll1(b)) ==> a == b
    decreases |a|
  {
    DecodesSet1(k, a);
    DecodesSet1(k, b);
    if a != [] && b != [] && PacketsOf1(k, a) == PacketsOf1(k, b) {
      assert PacketsOf1(k, a)[0] == PacketsOf1(k, b)[0] && PacketsOf1(k, a)[1..] == PacketsOf1(k, b)[1..];
      DecodesSet1(k, a[1..]);
      DecodesSet1(k, b[1..]);
      EventsAreTold1(k, keys, a[1..], b[1..]);
      assert a == [a[0]] + a[1..] && b == [b[0]] + b[1..];
    }
  }

  /** The handler of set 1. */
  class KeyboardScanCodeSet1Handler {
    const keypoints: Keypoints
    var state: Mode
    var bytesRead: nat
    var onError: bool

    ghost function Current(): State
      reads this
    {
      State(state, bytesRead, onError, false)
    }

    constructor (keypoints: Keypoints)
      ensures this.keypoints == keypoints && Current() == START
    {
      this.keypoints, state, bytesRead, onError := keypoints, Default, 0, false;
    }

    method Handle(b: byte) returns (packet: Option<Packet>)
      requires InTables1(Current())
      modifies this
      ensures InTables1(Current()) && (Current(), packet) == Step1(keypoints, old(Current()), b)
    {
      StaysInTables1(keypoints, Current(), b);
      packet := None;
      match state
      case Default =>
        if b == 0xE0 {
          bytesRead := bytesRead + 1;
          state := Extended1;
        } else if b == 0xE1 {
          bytesRead := bytesRead + 1;
          state := Extended3;
        } else {
          packet := Some(Packet(b, keypoints.plain(b), b < 0x80));
        }
      case Extended1 =>
        if b == PRINT_1[1] {
          bytesRead := bytesRead + 1;
          state := Extended2Press;
        } else if b == PRINT_RELEASE_1[1] {
          bytesRead := bytesRead + 1;
          state := Extended2Release;
        } else {
          bytesRead := 0;
          state := Default;
          packet := Some(Packet(b, keypoints.extended(b), b < 0x80));
        }
      case Extended2Press =>
        packet := Advance(b, PRINT_1, Packet(b, keypoints.printScreen, true));
      case Extended2Release =>
        packet := Advance(b, PRINT_RELEASE_1, Packet(b, keypoints.printScreen, false));
      case Extended3 =>
        packet := Advance(b, PAUSE_1, Packet(b, keypoints.pause, true));
    }

    /** The part that the three fixed sequences share. */
    method Advance(b: byte, expected: seq<byte>, complete: Packet) returns (packet: Option<Packet>)
      requires bytesRead < |expected|
      modifies this
      ensures (Current(), packet) == Follow(old(Current()), expected, b, complete)
    {
      if b == expected[bytesRead] && !onError {
        bytesRead := bytesRead + 1;
        if bytesRead == |expected| {
          bytesRead := 0;
          state := Default;
          return Some(complete);
        }
      } else {
        onError := true;
        bytesRead := bytesRead + 1;
        if bytesRead == |expected| {
          bytesRead := 0;
          state := Default;
          onError := false;
        }
      }
      return None;
    }
  }

  // ---------- scan code set 2 ----------

  const PRINT_2: seq<byte> := [0xE0, 0x12, 0xE0, 0x7C]
  const PRINT_RELEASE_2: seq<byte> := [0xE0, 0xF0, 0x7C, 0xE0, 0xF0, 0x12]
  const PAUSE_2: seq<byte> := [0xE1, 0x14, 0x77, 0xE1, 0xF0, 0x14, 0xF0, 0x77]
  const RELEASE: byte := 0xF0

  /** Whether the handler of set 2 stays within its tables on the next byte. */
  predicate InTables2(s: State, b: byte) {
    match s.mode
    case Default => true
    case Extended1 => b == RELEASE || s.bytesRead < |PRINT_2|
    case Extended2Press => s.bytesRead < |PRINT_2|
    case Extended2Release => s.bytesRead < |PRINT_RELEASE_2|
    case Extended3 => s.bytesRead < |PAUSE_2|
  }

  /** A fixed sequence of set 2; clearing the release flag depends on the sequence. */
  function Follow2(s: State, expected: seq<byte>, b: byte, packet: Packet, clearOnGood: bool, clearOnBad: bool): (State, Option<Packet>)
    requires s.bytesRead < |expected|
  {
    var good := b == expected[s.bytesRead] && !s.onError;
    if s.bytesRead + 1 == |expected| then
      (START.(onRelease := s.onRelease && !(if good then clearOnGood else clearOnBad)), if good then Some(packet) else None)
    else (s.(bytesRead := s.bytesRead + 1, onError := !good), None)
  }

  function Step2(k: Keypoints, s: State, b: byte): (State, Option<Packet>)
    requires InTables2(s, b)
  {
    match s.mode
    case Default =>
      if b == 0xE0 then (s.(mode := Extended1, bytesRead := s.bytesRead + 1), None)
      else if b == 0xE1 then (s.(mode := Extended3, bytesRead := s.bytesRead + 1), None)
      else if b == RELEASE then (s.(bytesRead := s.bytesRead + 1, onRelease := true), None)
      else (s.(bytesRead := 0, onRelease := false), Some(Packet(b, k.plain(b % 0x84), !s.onRelease)))
    case Extended1 =>
      if b == RELEASE then (s.(bytesRead := s.bytesRead + 1, onRelease := true), None)
      else if b == PRINT_2[s.bytesRead] then (s.(mode := Extended2Press, bytesRead := s.bytesRead + 1), None)
      else if b == PRINT_RELEASE_2[s.bytesRead] then (s.(mode := Extended2Release, bytesRead := s.bytesRead + 1), None)
      else (s.(mode := Default, bytesRead := 0, onRelease := false), Some(Packet(b, k.extended(b), !s.onRelease)))
    case Extended2Press => Follow2(s, PRINT_2, b, Packet(b, k.printScreen, true), false, true)
    case Extended2Release => Follow2(s, PRINT_RELEASE_2, b, Packet(b, k.printScreen, false), true, true)
    case Extended3 => Follow2(s, PAUSE_2, b, Packet(b, k.pause, true), false, false)
  }

  /** The run on a byte stream; nothing if it reads beyond a table. */
  function Run2(k: Keypoints, s: State, bytes: seq<byte>): Option<(State, seq<Packet>)>
    decreases |bytes|
  {
    if bytes == [] then Some((s, []))
    else if !InTables2(s, bytes[0]) then None
    else
      var step := Step2(k, s, bytes[0]);
      match Run2(k, step.0, bytes[1..])
      case None => None
      case Some(rest) => Some((rest.0, Created(step.1) + rest.1))
  }

  // ---------- which streams take set 2 out of its tables ----------

  /** How many release prefixes a stream starts with. */
  function Lead(q: seq<byte>): (n: nat)
    ensures n <= |q| && (n < |q| ==> q[n] != RELEASE) && forall m :: 0 <= m < n ==> q[m] == RELEASE
  {
    if q == [] || q[0] != RELEASE then 0 else 1 + Lead(q[1..])
  }

  /** What a stream starts with: so many bytes up to the next start of a key, less than that, or bytes
      that are compared with nothing because the tables have ended. */
  datatype Unit = Whole(length: nat) | Partial | Beyond

  function Upto(q: seq<byte>, length: nat): Unit {
    if |q| >= length then Whole(length) else Partial
  }

  /** A unit with 0xE0 in which byte n is the first one behind it that is no release prefix. */
  function ReadExtended(q: seq<byte>, n: nat): (u: Unit)
    requires 0 < n <= |q|
    ensures u.Whole? ==> 0 < u.length <= |q|
  {
    if n == |q| then Partial
    else if n >= |PRINT_2| then Beyond
    else if q[n] == PRINT_2[n] then
      if n + 1 < |PRINT_2| then Upto(q, |PRINT_2|) else if |q| > n + 1 then Beyond else Partial
    else if q[n] == PRINT_RELEASE_2[n] then Upto(q, |PRINT_RELEASE_2|)
    else Whole(n + 1)
  }

  function ReadUnit(q: seq<byte>): (u: Unit)
    ensures u.Whole? ==> 0 < u.length <= |q|
  {
    var i := Lead(q);
    if i == |q| then Partial
    else if q[i] == 0xE1 then
      if i + 1 < |PAUSE_2| then Upto(q, |PAUSE_2|) else if |q| > i + 1 then Beyond else Partial
    else if q[i] == 0xE0 then
      ReadExtended(q, i + 1 + Lead(q[i + 1..]))
    else Whole(i + 1)
  }

  predicate Leaves2(bytes: seq<byte>)
    decreases |bytes|
  {
    match ReadUnit(bytes)
    case Whole(length) => Leaves2(bytes[length..])
    case Partial => false
    case Beyond => true
  }

  predicate AllReleases(q: seq<byte>, from: nat, to: nat)
    requires from <= to <= |q|
  {
    forall m :: from <= m < to ==> q[m] == RELEASE
  }

  /** i release prefixes, then an extended key behind j more of them, or Pause. */
  predicate BeyondShape(q: seq<byte>, i: nat, j: nat) {
    var n := i + 1 + j;
    && n < |q| && AllReleases(q, 0, i) && AllReleases(q, i + 1, n)
    && (|| (q[i] == 0xE0 && i + j >= 3 && q[n] != RELEASE)
        || (q[i] == 0xE0 && i + j == 2 && q[n] == 0x7C && n + 1 < |q|)
        || (q[i] == 0xE1 && i >= 7))
  }

  /** A stream starts beyond the tables in exactly three ways: an extended key with three or more release
      prefixes, before or within it; with two of them and the last code of Print Screen, if a byte
      follows; and Pause behind seven or more of them, if a byte follows. */
  lemma BeyondShapes(q: seq<byte>)
    ensures ReadUnit(q).Beyond? <==> exists i: nat, j: nat :: BeyondShape(q, i, j)
  {
    var i := Lead(q);
    if ReadUnit(q).Beyond? {
      var j := if q[i] == 0xE0 then Lead(q[i + 1..]) else 0;
      assert forall m :: i + 1 <= m < i + 1 + j ==> q[m] == q[i + 1..][m - i - 1];
      assert BeyondShape(q, i, j);
    }
    forall a: nat, b: nat | BeyondShape(q, a, b)
      ensures ReadUnit(q).Beyond?
    {
      assert a == i;
      if q[i] == 0xE0 {
        LeadIs(q[i + 1..], b);
      }
    }
  }

  lemma LeadIs(q: seq<byte>, n: nat)
    requires n < |q| && q[n] != RELEASE && forall m :: 0 <= m < n ==> q[m] == RELEASE
    ensures Lead(q) == n
  {
  }

  predicate Fails(k: Keypoints, s: State, bytes: seq<byte>) {
    Run2(k, s, bytes) == None
  }

  lemma {:induction false} ReleasesRead(k: Keypoints, s: State, bytes: seq<byte>, i: nat)
    requires s.mode in {Default, Extended1} && i <= |bytes| && AllReleases(bytes, 0, i)
    ensures Fails(k, s, bytes) <==> Fails(k, s.(bytesRead := s.bytesRead + i, onRelease := s.onRelease || i > 0), bytes[i..])
    decreases i
  {
    if i > 0 {
      ReleasesRead(k, Step2(k, s, RELEASE).0, bytes[1..], i - 1);
      assert bytes[1..][i - 1..] == bytes[i..];
    } else {
      assert bytes[0..] == bytes;
    }
  }

  predicate Settled(s: State) {
    s.mode == Default && s.bytesRead == 0 && !s.onError
  }

  /** The length of the sequence that the handler follows. */
  function SequenceLength(mode: Mode): nat {
    match mode
    case Extended2Press => |PRINT_2|
    case Extended2Release => |PRINT_RELEASE_2|
    case _ => |PAUSE_2|
  }

  lemma FailsStep(k: Keypoints, s: State, bytes: seq<byte>)
    ensures bytes == [] ==> !Fails(k, s, bytes)
    ensures bytes != [] && InTables2(s, bytes[0]) ==> (Fails(k, s, bytes) <==> Fails(k, Step2(k, s, bytes[0]).0, bytes[1..]))
  {
  }

  lemma FailsOutside(k: Keypoints, s: State, bytes: seq<byte>)
    requires bytes != []
    ensures !InTables2(s, bytes[0]) ==> Fails(k, s, bytes)
  {
  }

  lemma SequenceStep(k: Keypoints, s: State, b: byte)
    requires s.mode in {Extended2Press, Extended2Release, Extended3} && s.bytesRead < SequenceLength(s.mode)
    ensures InTables2(s, b)
    ensures var next := Step2(k, s, b).0;
            if s.bytesRead + 1 == SequenceLength(s.mode) then Settled(next) else next.mode == s.mode && next.bytesRead == s.bytesRead + 1
  {
  }

  /** The rest of a sequence is swallowed, whether it matches or not. */
  lemma {:induction false} SequenceRead(k: Keypoints, s: State, bytes: seq<byte>) returns (s': State)
    requires s.mode in {Extended2Press, Extended2Release, Extended3} && s.bytesRead < SequenceLength(s.mode)
    ensures Settled(s')
    ensures var left := SequenceLength(s.mode) - s.bytesRead;
            Fails(k, s, bytes) <==> left <= |bytes| && Fails(k, s', bytes[left..])
    decreases |bytes|
  {
    s' := START;
    FailsStep(k, s, bytes);
    if bytes != [] {
      SequenceStep(k, s, bytes[0]);
      hide Step2, Fails, SequenceLength, InTables2;
      var next := Step2(k, s, bytes[0]).0;
      var left := SequenceLength(s.mode) - s.bytesRead;
      if left == 1 {
        s' := next;
      } else {
        s' := SequenceRead(k, next, bytes[1..]);
        assert left <= |bytes| ==> bytes[1..][left - 1..] == bytes[left..];
      }
    }
  }

  /** Byte n of a unit has started a sequence. */
  lemma SequenceUnit(k: Keypoints, s: State, q: seq<byte>, n: nat) returns (s': State)
    requires s.mode in {Extended2Press, Extended2Release, Extended3} && s.bytesRead == n + 1 && n < |q|
    ensures Settled(s')
    ensures var length := SequenceLength(s.mode);
            var unit := if n + 1 < length then Upto(q, length) else if |q| > n + 1 then Beyond else Partial;
            Fails(k, s, q[n + 1..]) <==> unit.Beyond? || (unit.Whole? && Fails(k, s', q[unit.length..]))
  {
    var length := SequenceLength(s.mode);
    hide Fails, SequenceLength;
    if n + 1 < length {
      s' := SequenceRead(k, s, q[n + 1..]);
      assert |q| >= length ==> q[n + 1..][length - (n + 1)..] == q[length..];
    } else {
      s' := START;
      BeyondSequence(k, s, q[n + 1..]);
    }
  }

  /** The handler reads the release prefixes and the byte behind them. */
  lemma PrefixesRead(k: Keypoints, s: State, q: seq<byte>) returns (next: State)
    requires Settled(s) && Lead(q) < |q|
    ensures var i := Lead(q);
            && (Fails(k, s, q) <==> Fails(k, next, q[i + 1..]))
            && (if q[i] == 0xE0 then next.mode == Extended1 && next.bytesRead == i + 1 && !next.onError
                else if q[i] == 0xE1 then next.mode == Extended3 && next.bytesRead == i + 1
                else Settled(next))
  {
    var i := Lead(q);
    ReleasesRead(k, s, q, i);
    var s1 := s.(bytesRead := i, onRelease := s.onRelease || i > 0);
    hide Fails, Lead, Step2, InTables2;
    DefaultStep(k, s1, q[i]);
    FailsStep(k, s1, q[i..]);
    assert q[i..][0] == q[i] && q[i..][1..] == q[i + 1..];
    next := Step2(k, s1, q[i]).0;
  }

  lemma OnlyPrefixes(k: Keypoints, s: State, q: seq<byte>)
    requires Settled(s) && Lead(q) == |q|
    ensures !Fails(k, s, q)
  {
    ReleasesRead(k, s, q, |q|);
  }

  /** The first unit of a stream decides, or the rest does. */
  lemma UnitRead(k: Keypoints, s: State, q: seq<byte>) returns (s': State)
    requires Settled(s)
    ensures Settled(s')
    ensures Fails(k, s, q) <==> ReadUnit(q).Beyond? || (ReadUnit(q).Whole? && Fails(k, s', q[ReadUnit(q).length..]))
  {
    hide Fails, Lead, Upto, ReadExtended, Settled;
    var i := Lead(q);
    if i == |q| {
      OnlyPrefixes(k, s, q);
      return s;
    }
    var next := PrefixesRead(k, s, q);
    if q[i] == 0xE1 {
      s' := SequenceUnit(k, next, q, i);
    } else if q[i] == 0xE0 {
      s' := ExtendedRead(k, next, q, i + 1);
    } else {
      s' := next;
    }
  }

  /** The first byte behind 0xE0 that is no release prefix, as byte n of its unit. */
  lemma ExtendedStep(k: Keypoints, s: State, b: byte)
    requires s.mode == Extended1 && !s.onError && s.bytesRead > 0 && b != RELEASE
    ensures InTables2(s, b) <==> s.bytesRead < |PRINT_2|
    ensures s.bytesRead < |PRINT_2| ==>
              var next, n := Step2(k, s, b).0, s.bytesRead;
              (next.mode == Default ==> Settled(next)) && if b == PRINT_2[n] then next.mode == Extended2Press && next.bytesRead == n + 1
              else if b == PRINT_RELEASE_2[n] then next.mode == Extended2Release && next.bytesRead == n + 1
              else Settled(next)
  {
  }

  lemma DefaultStep(k: Keypoints, s: State, b: byte)
    requires s.mode == Default && !s.onError && b != RELEASE
    ensures InTables2(s, b)
    ensures var next, n := Step2(k, s, b).0, s.bytesRead;
            if b == 0xE0 then next.mode == Extended1 && next.bytesRead == n + 1 && !next.onError
            else if b == 0xE1 then next.mode == Extended3 && next.bytesRead == n + 1
            else Settled(next)
  {
  }

  lemma BeyondSequence(k: Keypoints, s: State, bytes: seq<byte>)
    requires s.mode in {Extended2Press, Extended2Release, Extended3} && s.bytesRead >= SequenceLength(s.mode)
    ensures Fails(k, s, bytes) <==> bytes != []
  {
  }

  /** The handler reads the release prefixes behind 0xE0. */
  lemma InnerPrefixesRead(k: Keypoints, s: State, q: seq<byte>, at: nat) returns (s1: State)
    requires s.mode == Extended1 && s.bytesRead == at && 0 < at <= |q| && !s.onError
    ensures var n := at + Lead(q[at..]);
            && s1.mode == Extended1 && s1.bytesRead == n && !s1.onError && n <= |q| && (n < |q| ==> q[n] != RELEASE)
            && (Fails(k, s, q[at..]) <==> Fails(k, s1, q[n..]))
  {
    var j := Lead(q[at..]);
    ReleasesRead(k, s, q[at..], j);
    hide Fails;
    assert q[at..][j..] == q[at + j..];
    assert at + j < |q| ==> q[at..][j] == q[at + j];
    s1 := s.(bytesRead := at + j, onRelease := s.onRelease || j > 0);
  }

  lemma ExtendedPrefixesRead(k: Keypoints, s: State, q: seq<byte>, at: nat) returns (next: State)
    requires s.mode == Extended1 && s.bytesRead == at && 0 < at <= |q| && !s.onError
    ensures var n := at + Lead(q[at..]);
            && (n == |q| ==> !Fails(k, s, q[at..]))
            && (|PRINT_2| <= n < |q| ==> Fails(k, s, q[at..]))
            && (n < |q| && n < |PRINT_2| ==>
                  && (Fails(k, s, q[at..]) <==> Fails(k, next, q[n + 1..]))
                  && (if q[n] == PRINT_2[n] then next.mode == Extended2Press && next.bytesRead == n + 1
                      else if q[n] == PRINT_RELEASE_2[n] then next.mode == Extended2Release && next.bytesRead == n + 1
                      else Settled(next)))
  {
    hide Fails, Lead, Step2, InTables2, Settled;
    var s1 := InnerPrefixesRead(k, s, q, at);
    var n := s1.bytesRead;
    FailsStep(k, s1, q[n..]);
    next := s1;
    if n < |q| {
      assert q[n..][0] == q[n] && q[n..][1..] == q[n + 1..];
      ExtendedStep(k, s1, q[n]);
      FailsOutside(k, s1, q[n..]);
      if n < |PRINT_2| {
        next := Step2(k, s1, q[n]).0;
      }
    }
  }

  lemma ExtendedRead(k: Keypoints, s: State, q: seq<byte>, at: nat) returns (s': State)
    requires s.mode == Extended1 && s.bytesRead == at && 0 < at <= |q| && !s.onError
    ensures Settled(s')
    ensures var unit := ReadExtended(q, at + Lead(q[at..]));
            Fails(k, s, q[at..]) <==> unit.Beyond? || (unit.Whole? && Fails(k, s', q[unit.length..]))
  {
    s' := START;
    var n := at + Lead(q[at..]);
    var next := ExtendedPrefixesRead(k, s, q, at);
    hide Fails, Lead, Upto;
    if n < |q| && n < |PRINT_2| {
      if q[n] == PRINT_2[n] || q[n] == PRINT_RELEASE_2[n] {
        s' := SequenceUnit(k, next, q, n);
      } else {
        s' := next;
      }
    }
  }

  /** The handler of set 2 leaves its tables exactly on the streams that have such a unit, counted unit
      by unit from the start. */
  lemma {:induction false} LeavesTables2(k: Keypoints, s: State, bytes: seq<byte>)
    requires Settled(s)
    ensures Run2(k, s, bytes) == None <==> Leaves2(bytes)
    decreases |bytes|
  {
    var s' := UnitRead(k, s, bytes);
    if ReadUnit(bytes).Whole? {
      LeavesTables2(k, s', bytes[ReadUnit(bytes).length..]);
    }
  }

  /** For instance three release prefixes within an extended key. */
  lemma MalformedLeavesTables2(k: Keypoints, code: byte)
    requires code != RELEASE
    ensures Run2(k, START, [0xE0, RELEASE, RELEASE, RELEASE, code]) == None
  {
    var q := [0xE0, RELEASE, RELEASE, RELEASE, code];
    assert BeyondShape(q, 0, 3);
    BeyondShapes(q);
    LeavesTables2(k, START, q);
  }

  /** The events that set 2 can express. */
  predicate Expressible2(e: KeyEvent) {
    match e
    case Plain(code, _) => code !in {0xE0, 0xE1, 0xF0}
    case Extended(code, pressed) => code != RELEASE && (if pressed then code != 0x12 else code != 0xE0 && code != 0x7C)
    case _ => true
  }

  function Encode2(e: KeyEvent): seq<byte>
    requires Expressible2(e)
  {
    match e
    case Plain(code, pressed) => if pressed then [code] else [RELEASE, code]
    case Extended(code, pressed) => if pressed then [0xE0, code] else [0xE0, RELEASE, code]
    case PrintScreen(pressed) => if pressed then PRINT_2 else PRINT_RELEASE_2
    case Pause => PAUSE_2
  }

  function PacketOf2(k: Keypoints, e: KeyEvent): Packet
    requires Expressible2(e)
  {
    var last := Encode2(e)[|Encode2(e)| - 1];
    match e
    case Plain(_, pressed) => Packet(last, k.plain(last % 0x84), pressed)
    case Extended(_, pressed) => Packet(last, k.extended(last), pressed)
    case PrintScreen(pressed) => Packet(last, k.printScreen, pressed)
    case Pause => Packet(last, k.pause, true)
  }

  /** What a run answers if it starts with the given packets. */
  function After(packets: seq<Packet>, rest: Option<(State, seq<Packet>)>): Option<(State, seq<Packet>)> {
    match rest
    case None => None
    case Some(r) => Some((r.0, packets + r.1))
  }

  lemma AfterNothing(rest: Option<(State, seq<Packet>)>)
    ensures After([], rest) == rest
  {
    assert rest.Some? ==> [] + rest.value.1 == rest.value.1;
  }

  lemma RunFrom2(k: Keypoints, s: State, b: byte, rest: seq<byte>)
    requires InTables2(s, b)
    ensures var step := Step2(k, s, b);
            Run2(k, s, [b] + rest) == if step.1.Some? then After([step.1.value], Run2(k, step.0, rest)) else Run2(k, step.0, rest)
  {
    assert ([b] + rest)[1..] == rest;
    AfterNothing(Run2(k, Step2(k, s, b).0, rest));
  }

  lemma SequenceDecodes2(k: Keypoints, s: State, expected: seq<byte>, packet: Packet, rest: seq<byte>)
    requires !s.onError && s.bytesRead < |expected|
    requires s.mode == Extended2Press ==> expected == PRINT_2 && packet == Packet(0x7C, k.printScreen, true) && !s.onRelease
    requires s.mode == Extended2Release ==> expected == PRINT_RELEASE_2 && packet == Packet(0x12, k.printScreen, false)
    requires s.mode == Extended3 ==> expected == PAUSE_2 && packet == Packet(0x77, k.pause, true) && !s.onRelease
    requires s.mode in {Extended2Press, Extended2Release, Extended3}
    ensures Run2(k, s, expected[s.bytesRead..] + rest) == After([packet], Run2(k, START, rest))
  {
    hide Run2;
    FixedOutcome2(k, s, expected[s.bytesRead..], rest);
  }

  /** The fixed sequence that the handler of set 2 is in, and the packet that completes it. */
  function Fixed2(k: Keypoints, mode: Mode): (seq<byte>, Packet) {
    match mode
    case Extended2Press => ([0xE0, 0x12, 0xE0, 0x7C], Packet(0x7C, k.printScreen, true))
    case Extended2Release => ([0xE0, 0xF0, 0x7C, 0xE0, 0xF0, 0x12], Packet(0x12, k.printScreen, false))
    case _ => ([0xE1, 0x14, 0x77, 0xE1, 0xF0, 0x14, 0xF0, 0x77], Packet(0x77, k.pause, true))
  }

  /** As many bytes as are left of a fixed sequence take the handler of set 2 back to its default mode; they
      give a packet if and only if all of them match.  A release prefix that came before is forgotten
      unless the sequence is Pause or a complete Print Screen. */
  lemma {:induction false} FixedOutcome2(k: Keypoints, s: State, bytes: seq<byte>, rest: seq<byte>)
    requires s.mode in {Extended2Press, Extended2Release, Extended3} && s.bytesRead < |Fixed2(k, s.mode).0|
    requires |bytes| == |Fixed2(k, s.mode).0| - s.bytesRead
    ensures var (expected, packet) := Fixed2(k, s.mode);
            var matches := !s.onError && bytes == expected[s.bytesRead..];
            var kept := s.onRelease && (s.mode == Extended3 || (s.mode == Extended2Press && matches));
            Run2(k, s, bytes + rest)
            == After(if matches then [packet] else [], Run2(k, State(Default, 0, false, kept), rest))
    decreases |bytes|
  {
    var expected := Fixed2(k, s.mode).0;
    var b, more := bytes[0], bytes[1..];
    FixedStep2(k, s, b);
    hide Run2, Step2, InTables2, Fixed2;
    assert bytes == [b] + more && bytes + rest == [b] + (more + rest);
    assert expected[s.bytesRead..] == [expected[s.bytesRead]] + expected[s.bytesRead + 1..];
    RunFrom2(k, s, b, more + rest);
    hide After;
    if |bytes| > 1 {
      FixedOutcome2(k, Step2(k, s, b).0, more, rest);
    } else {
      assert more + rest == rest;
      AfterNothing(Run2(k, Step2(k, s, b).0, rest));
    }
  }

  lemma FixedStep2(k: Keypoints, s: State, b: byte)
    requires s.mode in {Extended2Press, Extended2Release, Extended3} && s.bytesRead < |Fixed2(k, s.mode).0|
    ensures InTables2(s, b)
    ensures var (expected, packet) := Fixed2(k, s.mode);
            var good := b == expected[s.bytesRead] && !s.onError;
            var kept := s.onRelease && (s.mode == Extended3 || (s.mode == Extended2Press && good));
            Step2(k, s, b) == if s.bytesRead + 1 == |expected| then (State(Default, 0, false, kept), if good then Some(packet) else None)
                              else (s.(bytesRead := s.bytesRead + 1, onError := !good), None)
  {
  }

  lemma PlainDecodes2(k: Keypoints, code: byte, pressed: bool, rest: seq<byte>)
    requires Expressible2(Plain(code, pressed))
    ensures Run2(k, START, Encode2(Plain(code, pressed)) + rest) == After([PacketOf2(k, Plain(code, pressed))], Run2(k, START, rest))
  {
    if pressed {
      RunFrom2(k, START, code, rest);
    } else {
      assert [RELEASE, code] + rest == [RELEASE] + ([code] + rest);
      RunFrom2(k, START, RELEASE, [code] + rest);
      RunFrom2(k, Step2(k, START, RELEASE).0, code, rest);
    }
  }

  lemma ExtendedDecodes2(k: Keypoints, code: byte, pressed: bool, rest: seq<byte>)
    requires Expressible2(Extended(code, pressed))
    ensures Run2(k, START, Encode2(Extended(code, pressed)) + rest) == After([PacketOf2(k, Extended(code, pressed))], Run2(k, START, rest))
  {
    var s1 := Step2(k, START, 0xE0).0;
    if pressed {
      assert [0xE0, code] + rest == [0xE0] + ([code] + rest);
      RunFrom2(k, START, 0xE0, [code] + rest);
      RunFrom2(k, s1, code, rest);
    } else {
      assert [0xE0, RELEASE, code] + rest == [0xE0] + ([RELEASE] + ([code] + rest));
      RunFrom2(k, START, 0xE0, [RELEASE] + ([code] + rest));
      RunFrom2(k, s1, RELEASE, [code] + rest);
      RunFrom2(k, Step2(k, s1, RELEASE).0, code, rest);
    }
  }

  lemma PrintDecodes2(k: Keypoints, pressed: bool, rest: seq<byte>)
    ensures Run2(k, START, Encode2(PrintScreen(pressed)) + rest) == After([PacketOf2(k, PrintScreen(pressed))], Run2(k, START, rest))
  {
    hide Run2, After;
    if pressed {
      PrintPressDecodes2(k, rest);
    } else {
      PrintReleaseDecodes2(k, rest);
    }
  }

  lemma PrintPressDecodes2(k: Keypoints, rest: seq<byte>)
    ensures Run2(k, START, PRINT_2 + rest) == After([Packet(0x7C, k.printScreen, true)], Run2(k, START, rest))
  {
    hide Run2, After;
    assert PRINT_2 + rest == [0xE0] + ([0x12] + (PRINT_2[2..] + rest));
    RunFrom2(k, START, 0xE0, [0x12] + (PRINT_2[2..] + rest));
    RunFrom2(k, State(Extended1, 1, false, false), 0x12, PRINT_2[2..] + rest);
    SequenceDecodes2(k, State(Extended2Press, 2, false, false), PRINT_2, Packet(0x7C, k.printScreen, true), rest);
  }

  lemma PrintReleaseDecodes2(k: Keypoints, rest: seq<byte>)
    ensures Run2(k, START, PRINT_RELEASE_2 + rest) == After([Packet(0x12, k.printScreen, false)], Run2(k, START, rest))
  {
    hide Run2, After;
    assert PRINT_RELEASE_2 + rest == [0xE0] + ([RELEASE] + ([0x7C] + (PRINT_RELEASE_2[3..] + rest)));
    RunFrom2(k, START, 0xE0, [RELEASE] + ([0x7C] + (PRINT_RELEASE_2[3..] + rest)));
    RunFrom2(k, State(Extended1, 1, false, false), RELEASE, [0x7C] + (PRINT_RELEASE_2[3..] + rest));
    RunFrom2(k, State(Extended1, 2, false, true), 0x7C, PRINT_RELEASE_2[3..] + rest);
    SequenceDecodes2(k, State(Extended2Release, 3, false, true), PRINT_RELEASE_2, Packet(0x12, k.printScreen, false), rest);
  }

  lemma EventDecodes2(k: Keypoints, e: KeyEvent, rest: seq<byte>)
    requires Expressible2(e)
    ensures Run2(k, START, Encode2(e) + rest) == After([PacketOf2(k, e)], Run2(k, START, rest))
  {
    match e
    case Plain(code, pressed) => PlainDecodes2(k, code, pressed, rest);
    case Extended(code, pressed) => ExtendedDecodes2(k, code, pressed, rest);
    case PrintScreen(pressed) => PrintDecodes2(k, pressed, rest);
    case Pause =>
      assert PAUSE_2 + rest == [0xE1] + (PAUSE_2[1..] + rest);
      RunFrom2(k, START, 0xE1, PAUSE_2[1..] + rest);
      SequenceDecodes2(k, Step2(k, START, 0xE1).0, PAUSE_2, Packet(0x77, k.pause, true), rest);
  }

  function EncodeAll2(events: seq<KeyEvent>): seq<byte>
    requires forall e :: e in events ==> Expressible2(e)
  {
    if events == [] then [] else Encode2(events[0]) + EncodeAll2(events[1..])
  }

  function PacketsOf2(k: Keypoints, events: seq<KeyEvent>): seq<Packet>
    requires forall e :: e in events ==> Expressible2(e)
  {
    if events == [] then [] else [PacketOf2(k, events[0])] + PacketsOf2(k, events[1..])
  }

  /** Decoding inverts encoding for set 2. */
  lemma {:induction false} DecodesSet2(k: Keypoints, events: seq<KeyEvent>)
    requires forall e :: e in events ==> Expressible2(e)
    ensures Run2(k, START, EncodeAll2(events)) == Some((START, PacketsOf2(k, events)))
    decreases |events|
  {
    if events != [] {
      EventDecodes2(k, events[0], EncodeAll2(events[1..]));
      DecodesSet2(k, events[1..]);
    }
  }

  /** Events whose packets share the last byte have different keypoints. */
  predicate KeypointsDiffer2(k: Keypoints, keys: set<KeyEvent>)
    requires forall e :: e in keys ==> Expressible2(e)
  {
    forall e, f :: e in keys && f in keys && e != f && PacketOf2(k, e).scancode == PacketOf2(k, f).scancode ==>
      PacketOf2(k, e).keypoint != PacketOf2(k, f).keypoint
  }

  /** If the keypoints tell such keys apart, different event sequences are decoded differently. */
  lemma {:induction false} EventsAreTold2(k: Keypoints, keys: set<KeyEvent>, a: seq<KeyEvent>, b: seq<KeyEvent>)
    requires (forall e :: e in keys ==> Expressible2(e)) && KeypointsDiffer2(k, keys)
    requires (forall e :: e in a ==> e in keys) && forall e :: e in b ==> e in keys
    ensures Run2(k, START, EncodeAll2(a)) == Run2(k, START, EncodeAll2(b)) ==> a == b
    decreases |a|
  {
    DecodesSet2(k, a);
    DecodesSet2(k, b);
    if a != [] && b != [] && PacketsOf2(k, a) == PacketsOf2(k, b) {
      assert PacketsOf2(k, a)[0] == PacketsOf2(k, b)[0] && PacketsOf2(k, a)[1..] == PacketsOf2(k, b)[1..];
      DecodesSet2(k, a[1..]);
      DecodesSet2(k, b[1..]);
      EventsAreTold2(k, keys, a[1..], b[1..]);
      assert a == [a[0]] + a[1..] && b == [b[0]] + b[1..];
    }
  }

  /** The handler of set 2. */
  class KeyboardScanCodeSet2Handler {
    const keypoints: Keypoints
    var state: Mode
    var bytesRead: nat
    var onError: bool
    var onRelease: bool

    ghost function Current(): State
      reads this
    {
      State(state, bytesRead, onError, onRelease)
    }

    constructor (keypoints: Keypoints)
      ensures this.keypoints == keypoints && Current() == START
    {
      this.keypoints, state, bytesRead, onError, onRelease := keypoints, Default, 0, false, false;
    }

    /** One byte; beyond says that the handler would read behind one of its tables. */
    method Handle(b: byte) returns (packet: Option<Packet>, beyond: bool)
      modifies this
      ensures beyond <==> !InTables2(old(Current()), b)
      ensures if beyond then packet == None && Current() == old(Current()) else (Current(), packet) == Step2(keypoints, old(Current()), b)
    {
      packet, beyond := None, false;
      match state
      case Default =>
        if b == 0xE0 {
          bytesRead := bytesRead + 1;
          state := Extended1;
        } else if b == 0xE1 {
          bytesRead := bytesRead + 1;
          state := Extended3;
        } else if b == RELEASE {
          bytesRead := bytesRead + 1;
          onRelease := true;
        } else {
          bytesRead := 0;
          packet := Some(Packet(b, keypoints.plain(b % 0x84), !onRelease));
          onRelease := false;
        }
      case Extended1 =>
        if b == RELEASE {
          bytesRead := bytesRead + 1;
          onRelease := true;
        } else if bytesRead >= |PRINT_2| {
          beyond := true;
        } else if b == PRINT_2[bytesRead] {
          bytesRead := bytesRead + 1;
          state := Extended2Press;
        } else if b == PRINT_RELEASE_2[bytesRead] {
          bytesRead := bytesRead + 1;
          state := Extended2Release;
        } else {
          bytesRead := 0;
          state := Default;
          packet := Some(Packet(b, keypoints.extended(b), !onRelease));
          onRelease := false;
        }
      case Extended2Press =>
        packet, beyond := Advance(b, PRINT_2, Packet(b, keypoints.printScreen, true), false, true);
      case Extended2Release =>
        packet, beyond := Advance(b, PRINT_RELEASE_2, Packet(b, keypoints.printScreen, false), true, true);
      case Extended3 =>
        packet, beyond := Advance(b, PAUSE_2, Packet(b, keypoints.pause, true), false, false);
    }

    /** The part that the three fixed sequences share. */
    method Advance(b: byte, expected: seq<byte>, complete: Packet, clearOnGood: bool, clearOnBad: bool)
      returns (packet: Option<Packet>, beyond: bool)
      modifies this
      ensures beyond <==> old(bytesRead) >= |expected|
      ensures if beyond then packet == None && Current() == old(Current())
              else (Current(), packet) == Follow2(old(Current()), expected, b, complete, clearOnGood, clearOnBad)
    {
      if bytesRead >= |expected| {
        return None, true;
      }
      if b == expected[bytesRead] && !onError {
        bytesRead := bytesRead + 1;
        if bytesRead == |expected| {
          bytesRead := 0;
          state := Default;
          onRelease := onRelease && !clearOnGood;
          return Some(complete), false;
        }
      } else {
        onError := true;
        bytesRead := bytesRead + 1;
        if bytesRead == |expected| {
          bytesRead := 0;
          state := Default;
          onError := false;
          onRelease := onRelease && !clearOnBad;
        }
      }
      return None, false;
    }
  }

  // ---------- scan code set 3 ----------

  datatype KeyEvent3 = Key(code: byte, pressed: bool)

  function Step3(keypoint: byte -> byte, releasing: bool, b: byte): (bool, Option<Packet>) {
    if b == RELEASE then (true, None) else (false, Some(Packet(b, keypoint(b), !releasing)))
  }

  function Run3(keypoint: byte -> byte, releasing: bool, bytes: seq<byte>): (bool, seq<Packet>)
    decreases |bytes|
  {
    if bytes == [] then (releasing, [])
    else
      var step := Step3(keypoint, releasing, bytes[0]);
      var rest := Run3(keypoint, step.0, bytes[1..]);
      (rest.0, Created(step.1) + rest.1)
  }

  function EncodeAll3(events: seq<KeyEvent3>): seq<byte> {
    if events == [] then []
    else (if events[0].pressed then [events[0].code] else [RELEASE, events[0].code]) + EncodeAll3(events[1..])
  }

  function PacketsOf3(keypoint: byte -> byte, events: seq<KeyEvent3>): seq<Packet> {
    if events == [] then []
    else [Packet(events[0].code, keypoint(events[0].code), events[0].pressed)] + PacketsOf3(keypoint, events[1..])
  }

  /** Decoding inverts encoding for set 3. */
  lemma {:induction false} DecodesSet3(keypoint: byte -> byte, events: seq<KeyEvent3>)
    requires forall e :: e in events ==> e.code != RELEASE
    ensures Run3(keypoint, false, EncodeAll3(events)) == (false, PacketsOf3(keypoint, events))
    decreases |events|
  {
    if events != [] {
      var e, rest := events[0], EncodeAll3(events[1..]);
      DecodesSet3(keypoint, events[1..]);
      assert ([e.code] + rest)[1..] == rest;
      if !e.pressed {
        assert ([RELEASE, e.code] + rest)[1..] == [e.code] + rest;
        var after := Run3(keypoint, true, [e.code] + rest).1;
        assert [] + after == after;
      }
    }
  }

  /** Different event sequences are decoded differently, whatever the keypoints. */
  lemma {:induction false} EventsAreTold3(keypoint: byte -> byte, a: seq<KeyEvent3>, b: seq<KeyEvent3>)
    requires (forall e :: e in a ==> e.code != RELEASE) && forall e :: e in b ==> e.code != RELEASE
    ensures Run3(keypoint, false, EncodeAll3(a)) == Run3(keypoint, false, EncodeAll3(b)) ==> a == b
    decreases |a|
  {
    DecodesSet3(keypoint, a);
    DecodesSet3(keypoint, b);
    if a != [] && b != [] && PacketsOf3(keypoint, a) == PacketsOf3(keypoint, b) {
      assert PacketsOf3(keypoint, a)[0] == PacketsOf3(keypoint, b)[0] && PacketsOf3(keypoint, a)[1..] == PacketsOf3(keypoint, b)[1..];
      DecodesSet3(keypoint, a[1..]);
      DecodesSet3(keypoint, b[1..]);
      EventsAreTold3(keypoint, a[1..], b[1..]);
      assert a == [a[0]] + a[1..] && b == [b[0]] + b[1..];
    }
  }

  class KeyboardScanCodeSet3Handler {
    const keypoint: byte -> byte
    var releasing: bool

    constructor (keypoint: byte -> byte)
      ensures this.keypoint == keypoint && !releasing
    {
      this.keypoint, releasing := keypoint, false;
    }

    method Handle(b: byte) returns (packet: Option<Packet>)
      modifies this
      ensures (releasing, packet) == Step3(keypoint, old(releasing), b)
    {
      if b == RELEASE {
        releasing := true;
        return None;
      }
      packet := Some(Packet(b, keypoint(b), !releasing));
      releasing := false;
    }
  }
}
