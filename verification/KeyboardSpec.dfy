/**
  The keyboard driver (kernel/keyboard.c): a scancode decoder feeding a 64-slot ring from the interrupt handler, and
  keyboard_getchar draining it.  The handler may run between any two accesses of the consumer to the volatile
  variables; each such access is one step here.
 */
module KeyboardSpec {
  import opened Bytes

  // ---------------------------------------------------------------- the decoder

  /** The translation tables, by make code; NUL for keys without a character. */
  const PLAIN: string :=
    "\0\0" + "1234567890-=" + "\U{8}\t" + "qwertyuiop[]" + "\n\0" + "asdfghjkl;'`"
    + "\0" + "\\zxcvbnm,./" + "\0*\0" + " "
  const SHIFTED: string :=
    "\0\0" + "!@#$%^&*()_+" + "\U{8}\t" + "QWERTYUIOP{}" + "\n\0" + "ASDFGHJKL:\"~"
    + "\0" + "|ZXCVBNM<>?" + "\0*\0" + " "

  const KEY_UP: char := '\U{80}'
  const KEY_DOWN: char := '\U{81}'
  const KEY_LEFT: char := '\U{82}'
  const KEY_RIGHT: char := '\U{83}'

  const TABLE: nat := 58
  const LSHIFT: byte := 0x2A
  const RSHIFT: byte := 0x36

  datatype Mode = Mode(shift: bool, extended: bool)

  /** The character of an extended make code, NUL for none. */
  function Special(code: byte): char {
    match code
    case 0x48 => KEY_UP
    case 0x50 => KEY_DOWN
    case 0x4B => KEY_LEFT
    case 0x4D => KEY_RIGHT
    case _ => '\0'
  }

  lemma TableSizes()
    ensures |PLAIN| == TABLE && |SHIFTED| == TABLE
  {
  }

  /** The character of a plain make code, NUL for none. */
  function Translate(shift: bool, code: byte): char {
    TableSizes();
    if code >= TABLE then '\0' else if shift then SHIFTED[code] else PLAIN[code]
  }

  function NonNul(c: char): (s: seq<char>)
    ensures '\0' !in s
  {
    if c == '\0' then [] else [c]
  }

  /** keyboard_irq_handler on one scancode: the new mode and the characters to push, none or one. */
  function Decode(m: Mode, code: byte): (r: (Mode, seq<char>))
    ensures |r.1| <= 1
  {
    if code == 0xE0 then (m.(extended := true), [])
    else if m.extended then (m.(extended := false), if code < 0x80 then NonNul(Special(code)) else [])
    else if code >= 0x80 then
      (if code - 0x80 == LSHIFT || code - 0x80 == RSHIFT then m.(shift := false) else m, [])
    else if code == LSHIFT || code == RSHIFT then (m.(shift := true), [])
    else (m, NonNul(Translate(m.shift, code)))
  }

  /** The decoding of a stream of scancodes. */
  function DecodeAll(m: Mode, codes: seq<byte>): (r: (Mode, seq<char>))
    decreases |codes|
  {
    if codes == [] then (m, [])
    else
      var (m1, c) := Decode(m, codes[0]);
      var (m2, cs) := DecodeAll(m1, codes[1..]);
      (m2, c + cs)
  }

  lemma {:induction false} DecodeConcat(m: Mode, a: seq<byte>, b: seq<byte>)
    ensures var (m1, x) := DecodeAll(m, a);
            DecodeAll(m, a + b) == (DecodeAll(m1, b).0, x + DecodeAll(m1, b).1)
    decreases |a|
  {
    if a == [] {
      assert a + b == b && [] + DecodeAll(m, b).1 == DecodeAll(m, b).1;
    } else {
      assert (a + b)[0] == a[0] && (a + b)[1..] == a[1..] + b;
      var (m0, c) := Decode(m, a[0]);
      DecodeConcat(m0, a[1..], b);
      var (m1, x) := DecodeAll(m0, a[1..]);
      assert c + (x + DecodeAll(m1, b).1) == (c + x) + DecodeAll(m1, b).1;
    }
  }

  // ---------------------------------------------------------------- typing and decoding

  /** A key on the keyboard: a make code of the plain table, with or without shift, or an arrow. */
  datatype Key = Letter(code: byte, shift: bool) | Arrow(code: byte)

  predicate IsKey(k: Key) {
    match k
    case Letter(code, shift) => code < TABLE && Translate(shift, code) != '\0'
    case Arrow(code) => code < 0x80 && Special(code) != '\0'
  }

  function Char(k: Key): char {
    match k
    case Letter(code, shift) => Translate(shift, code)
    case Arrow(code) => Special(code)
  }

  /** What the keyboard sends when the key is struck and released, with a shift key held when needed. */
  function Strike(k: Key, shiftKey: byte): seq<byte>
    requires IsKey(k) && (shiftKey == LSHIFT || shiftKey == RSHIFT)
  {
    match k
    case Letter(code, shift) =>
      if shift then [shiftKey, code, code + 0x80, shiftKey + 0x80] else [code, code + 0x80]
    case Arrow(code) => [0xE0, code, 0xE0, code + 0x80]
  }

  function StrikeAll(ks: seq<Key>, shiftKey: byte): seq<byte>
    requires (shiftKey == LSHIFT || shiftKey == RSHIFT) && forall i :: 0 <= i < |ks| ==> IsKey(ks[i])
    decreases |ks|
  {
    if ks == [] then [] else Strike(ks[0], shiftKey) + StrikeAll(ks[1..], shiftKey)
  }

  function Chars(ks: seq<Key>): string
    decreases |ks|
  {
    if ks == [] then [] else [Char(ks[0])] + Chars(ks[1..])
  }

  const REST: Mode := Mode(false, false)

  lemma NoCharForShift()
    ensures Translate(false, LSHIFT) == '\0' && Translate(false, RSHIFT) == '\0'
    ensures Translate(true, LSHIFT) == '\0' && Translate(true, RSHIFT) == '\0'
  {
  }

  lemma DecodeTwo(m: Mode, a: byte, b: byte)
    ensures DecodeAll(m, [a, b]) == (Decode(Decode(m, a).0, b).0, Decode(m, a).1 + Decode(Decode(m, a).0, b).1)
  {
    hide Decode;
    assert [a, b][1..] == [b];
    var (m1, c) := Decode(m, a);
    assert DecodeAll(m1, [b]) == (Decode(m1, b).0, Decode(m1, b).1 + []);
    assert DecodeAll(m, [a, b]) == (DecodeAll(m1, [b]).0, c + DecodeAll(m1, [b]).1);
    assert Decode(m1, b).1 + [] == Decode(m1, b).1;
  }

  /** Striking a key decodes to its character and leaves no mode behind. */
  lemma StrikeDecodes(k: Key, shiftKey: byte)
    requires IsKey(k) && (shiftKey == LSHIFT || shiftKey == RSHIFT)
    ensures DecodeAll(REST, Strike(k, shiftKey)) == (REST, [Char(k)])
  {
    hide DecodeAll, Translate;
    NoCharForShift();
    match k
    case Letter(code, shift) =>
      if shift {
        DecodeTwo(REST, shiftKey, code);
        DecodeTwo(REST.(shift := true), code + 0x80, shiftKey + 0x80);
        DecodeConcat(REST, [shiftKey, code], [code + 0x80, shiftKey + 0x80]);
        assert Strike(k, shiftKey) == [shiftKey, code] + [code + 0x80, shiftKey + 0x80];
        assert DecodeAll(REST, Strike(k, shiftKey)).1 == [Char(k)];
      } else {
        DecodeTwo(REST, code, code + 0x80);
        assert DecodeAll(REST, Strike(k, shiftKey)).1 == [Char(k)];
      }
    case Arrow(code) =>
      DecodeTwo(REST, 0xE0, code);
      DecodeTwo(REST, 0xE0, code + 0x80);
      assert Decode(REST.(extended := true), code) == (REST, [Special(code)]);
      assert Decode(REST.(extended := true), code + 0x80) == (REST, []);
      assert DecodeAll(REST, [0xE0, code]).1 == [Special(code)];
      assert DecodeAll(REST, [0xE0, code + 0x80]).1 == [];
      DecodeConcat(REST, [0xE0, code], [0xE0, code + 0x80]);
      assert Strike(k, shiftKey) == [0xE0, code] + [0xE0, code + 0x80];
      assert DecodeAll(REST, Strike(k, shiftKey)).1 == [Char(k)];
  }

  /** Round trip: any text typed key by key decodes to that text. */
  lemma {:induction false} TypedDecodes(ks: seq<Key>, shiftKey: byte)
    requires (shiftKey == LSHIFT || shiftKey == RSHIFT) && forall i :: 0 <= i < |ks| ==> IsKey(ks[i])
    ensures DecodeAll(REST, StrikeAll(ks, shiftKey)) == (REST, Chars(ks))
    decreases |ks|
  {
    hide Strike, Char;
    if ks != [] {
      StrikeDecodes(ks[0], shiftKey);
      TypedDecodes(ks[1..], shiftKey);
      DecodeConcat(REST, Strike(ks[0], shiftKey), StrikeAll(ks[1..], shiftKey));
    }
  }

  // ---------------------------------------------------------------- the ring and the consumer

  const SLOTS: nat := 64

  /** The next index round the ring. */
  function Next(i: nat): (k: nat)
    ensures k < SLOTS && (i < SLOTS - 1 ==> k == i + 1) && (i == SLOTS - 1 ==> k == 0)
  {
    (i + 1) % SLOTS
  }

  /**
    Where keyboard_getchar is: each constructor names the volatile access it makes next, with the values read so
    far.
   */
  datatype Place =
    | Out
    | LoadHead | LoadTail(head: nat)
    | Sleep | Asleep
    | IndexHead | LoadChar(head: nat)
    | BumpHead(c: char) | StoreHead(c: char, head: nat)

  datatype Kb = Kb(buf: seq<char>, head: nat, tail: nat, mode: Mode, at: Place)

  predicate RingOk(k: Kb) {
    |k.buf| == SLOTS && k.head < SLOTS && k.tail < SLOTS
  }

  function Count(head: nat, tail: nat): (n: nat)
    requires head < SLOTS && tail < SLOTS
    ensures n < SLOTS && (n == 0 <==> head == tail)
  {
    if tail >= head then tail - head else tail + SLOTS - head
  }

  /** The characters in the ring, oldest first. */
  function Waiting(buf: seq<char>, head: nat, tail: nat): (s: seq<char>)
    requires |buf| == SLOTS && head < SLOTS && tail < SLOTS
    ensures |s| == Count(head, tail)
    decreases Count(head, tail)
  {
    if head == tail then [] else [buf[head]] + Waiting(buf, Next(head), tail)
  }

  function Pending(k: Kb): (s: seq<char>)
    requires RingOk(k)
    ensures |s| == Count(k.head, k.tail)
  {
    Waiting(k.buf, k.head, k.tail)
  }

  /** kb_push; it also wakes a sleeping consumer, which goes back to its loop test. */
  function Push(k: Kb, c: char): Kb
    requires RingOk(k)
  {
    var q := if Next(k.tail) != k.head then k.(buf := k.buf[k.tail := c], tail := Next(k.tail)) else k;
    Woken(q)
  }

  function Woken(k: Kb): Kb {
    if k.at == Asleep then k.(at := LoadHead) else k
  }

  /** One interrupt. */
  function Irq(k: Kb, code: byte): Kb
    requires RingOk(k)
  {
    var (m, cs) := Decode(k.mode, code);
    var q := k.(mode := m);
    if cs == [] then q else Push(q, cs[0])
  }

  /** What the consumer has read is still true, whatever was pushed since. */
  predicate Inv(k: Kb) {
    && RingOk(k)
    && (k.at.LoadTail? ==> k.at.head == k.head)
    && (k.at.IndexHead? || k.at.LoadChar? || k.at.BumpHead? || k.at.StoreHead? ==> Pending(k) != [])
    && (k.at.LoadChar? || k.at.StoreHead? ==> k.at.head == k.head)
    && (k.at.BumpHead? || k.at.StoreHead? ==> k.at.c == Pending(k)[0])
  }

  /** One access of the consumer. */
  function Tick(k: Kb): Kb
    requires Inv(k)
  {
    match k.at
    case Out => k.(at := LoadHead)
    case LoadHead => k.(at := LoadTail(k.head))
    case LoadTail(h) => k.(at := if h == k.tail then Sleep else IndexHead)
    case Sleep => k.(at := Asleep)
    case Asleep => k
    case IndexHead => k.(at := LoadChar(k.head))
    case LoadChar(h) => k.(at := BumpHead(k.buf[h]))
    case BumpHead(c) => k.(at := StoreHead(c, k.head))
    case StoreHead(_, h) => k.(head := Next(h), at := Out)
  }

  datatype Event = Interrupt(code: byte) | Consumer | WakeUp

  function Step(k: Kb, e: Event): Kb
    requires Inv(k)
  {
    match e
    case Interrupt(code) => Irq(k, code)
    case Consumer => Tick(k)
    case WakeUp => Woken(k)
  }

  /** What keyboard_getchar returns in this step, if it returns. */
  function Returned(k: Kb, e: Event): seq<char> {
    if e.Consumer? && k.at.StoreHead? then [k.at.c] else []
  }

  /** What this step accepts: the character decoded, unless 63 slots are occupied. */
  function Accepted(k: Kb, e: Event): seq<char>
    requires RingOk(k)
  {
    if e.Interrupt? && |Pending(k)| < SLOTS - 1 then Decode(k.mode, e.code).1 else []
  }

  // ---------------------------------------------------------------- what every step keeps

  /** A character stored at the tail becomes the last one waiting. */
  lemma {:induction false} StoreAppends(buf: seq<char>, head: nat, tail: nat, c: char)
    requires |buf| == SLOTS && head < SLOTS && tail < SLOTS && Next(tail) != head
    ensures Waiting(buf[tail := c], head, Next(tail)) == Waiting(buf, head, tail) + [c]
    decreases Count(head, tail)
  {
    hide Next;
    if head == tail {
      assert Waiting(buf[tail := c], Next(tail), Next(tail)) == [];
    } else {
      StoreAppends(buf, Next(head), tail, c);
    }
  }

  /** 63 occupied slots are the full ring: the test of kb_push drops exactly then. */
  lemma FullIff(head: nat, tail: nat)
    requires head < SLOTS && tail < SLOTS
    ensures Next(tail) == head <==> Count(head, tail) == 63
  {
  }

  lemma PushKeeps(k: Kb, c: char)
    requires Inv(k)
    ensures RingOk(Push(k, c))
    ensures Pending(Push(k, c)) == Pending(k) + if |Pending(k)| < SLOTS - 1 then [c] else []
    ensures Inv(Push(k, c))
  {
    hide Next, Waiting;
    FullIff(k.head, k.tail);
    if Next(k.tail) != k.head {
      StoreAppends(k.buf, k.head, k.tail, c);
    }
  }

  lemma TickKeeps(k: Kb)
    requires Inv(k)
    ensures Inv(Tick(k))
    ensures Pending(k) == Returned(k, Consumer) + Pending(Tick(k))
  {
    hide Next;
  }

  /** One step: what was waiting and what is accepted is what is returned and what is waiting, in that order. */
  lemma StepKeeps(k: Kb, e: Event)
    requires Inv(k)
    ensures Inv(Step(k, e))
    ensures Pending(k) + Accepted(k, e) == Returned(k, e) + Pending(Step(k, e))
  {
    hide Waiting, Tick, Push, Next;
    match e
    case Interrupt(code) =>
      var (m, cs) := Decode(k.mode, code);
      if cs != [] {
        PushKeeps(k.(mode := m), cs[0]);
        assert [cs[0]] == cs;
      }
    case Consumer => TickKeeps(k);
    case WakeUp =>
  }

  // ---------------------------------------------------------------- runs

  function Run(k: Kb, es: seq<Event>): (r: Kb)
    requires Inv(k)
    ensures Inv(r)
    decreases |es|
  {
    if es == [] then k
    else
      StepKeeps(k, es[0]);
      Run(Step(k, es[0]), es[1..])
  }

  /** Everything keyboard_getchar returned in the run. */
  function ReturnedIn(k: Kb, es: seq<Event>): seq<char>
    requires Inv(k)
    decreases |es|
  {
    if es == [] then []
    else
      StepKeeps(k, es[0]);
      Returned(k, es[0]) + ReturnedIn(Step(k, es[0]), es[1..])
  }

  function AcceptedIn(k: Kb, es: seq<Event>): seq<char>
    requires Inv(k)
    decreases |es|
  {
    if es == [] then []
    else
      StepKeeps(k, es[0]);
      Accepted(k, es[0]) + AcceptedIn(Step(k, es[0]), es[1..])
  }

  /** The scancodes of the run. */
  function Codes(es: seq<Event>): seq<byte>
    decreases |es|
  {
    if es == [] then [] else (if es[0].Interrupt? then [es[0].code] else []) + Codes(es[1..])
  }

  /** With interrupts anywhere, the consumer gets the accepted characters in order, none lost, none twice. */
  lemma {:induction false} ConsumerGetsAccepted(k: Kb, es: seq<Event>)
    requires Inv(k)
    ensures Pending(k) + AcceptedIn(k, es) == ReturnedIn(k, es) + Pending(Run(k, es))
    decreases |es|
  {
    hide Step, Inv, Pending, Accepted, Returned;
    if es != [] {
      RingIsOk(k);
      StepKeeps(k, es[0]);
      var k1, rest := Step(k, es[0]), es[1..];
      RingIsOk(k1);
      ConsumerGetsAccepted(k1, rest);
      RingIsOk(Run(k1, rest));
      var p0, p1, p2 := Pending(k), Pending(k1), Pending(Run(k1, rest));
      var a0, a1, r0, r1 := Accepted(k, es[0]), AcceptedIn(k1, rest), Returned(k, es[0]), ReturnedIn(k1, rest);
      assert p0 + (a0 + a1) == (p0 + a0) + a1 == (r0 + p1) + a1 == r0 + (p1 + a1) == r0 + (r1 + p2) == (r0 + r1) + p2;
    }
  }

  /** A run and then one more event. */
  lemma {:induction false} RunSnoc(k: Kb, es: seq<Event>, e: Event)
    requires Inv(k)
    ensures Run(k, es + [e]) == Step(Run(k, es), e)
    ensures ReturnedIn(k, es + [e]) == ReturnedIn(k, es) + Returned(Run(k, es), e)
    decreases |es|
  {
    hide Step, Inv, Returned;
    if es == [] {
      StepKeeps(k, e);
      assert (es + [e])[0] == e && (es + [e])[1..] == [];
      assert Run(Step(k, e), []) == Step(k, e) && ReturnedIn(Step(k, e), []) == [];
      assert Returned(k, e) + [] == [] + Returned(k, e);
    } else {
      StepKeeps(k, es[0]);
      assert (es + [e])[0] == es[0] && (es + [e])[1..] == es[1..] + [e];
      RunSnoc(Step(k, es[0]), es[1..], e);
    }
  }

  /** What happens besides the consumer. */
  function Outside(es: seq<Event>): seq<Event> {
    if es == [] then []
    else Outside(es[..|es| - 1]) + if es[|es| - 1].Consumer? then [] else [es[|es| - 1]]
  }

  lemma OutsideSnoc(es: seq<Event>, e: Event)
    ensures Outside(es + [e]) == Outside(es) + if e.Consumer? then [] else [e]
  {
    assert (es + [e])[..|es|] == es;
  }

  /** Nothing but the consumer moves the consumer, except that a sleeper may be woken. */
  lemma NoiseLeavesPlace(k: Kb, e: Event)
    requires Inv(k) && !e.Consumer?
    ensures Step(k, e).at == k.at || (k.at == Asleep && Step(k, e).at == LoadHead)
  {
  }

  lemma RingIsOk(k: Kb)
    requires Inv(k)
    ensures RingOk(k)
  {
  }

  /** Decoding does not depend on how the scancodes are interleaved with the consumer. */
  lemma StepMode(k: Kb, e: Event)
    requires Inv(k)
    ensures Step(k, e).mode == if e.Interrupt? then Decode(k.mode, e.code).0 else k.mode
  {
  }

  /** Some interrupt of the run arrives when 63 slots are occupied. */
  predicate EverFull(k: Kb, es: seq<Event>)
    requires Inv(k)
    decreases |es|
  {
    es != [] && (
      || (es[0].Interrupt? && |Pending(k)| == SLOTS - 1 && Decode(k.mode, es[0].code).1 != [])
      || (StepKeeps(k, es[0]); EverFull(Step(k, es[0]), es[1..])))
  }

  /** Everything decoded is accepted exactly if no character arrives while 63 slots are occupied. */
  lemma {:induction false} AcceptsAllIff(k: Kb, es: seq<Event>)
    requires Inv(k)
    ensures |AcceptedIn(k, es)| <= |DecodeAll(k.mode, Codes(es)).1|
    ensures AcceptedIn(k, es) == DecodeAll(k.mode, Codes(es)).1 <==> !EverFull(k, es)
    decreases |es|
  {
    hide Step, Pending, Decode, Inv;
    if es != [] {
      RingIsOk(k);
      StepKeeps(k, es[0]);
      StepMode(k, es[0]);
      var k1, rest := Step(k, es[0]), es[1..];
      AcceptsAllIff(k1, rest);
      if es[0].Interrupt? {
        assert Codes(es)[0] == es[0].code && Codes(es)[1..] == Codes(rest);
        SameHead(Accepted(k, es[0]), Decode(k.mode, es[0].code).1,
                 AcceptedIn(k1, rest), DecodeAll(k1.mode, Codes(rest)).1);
      } else {
        assert Codes(es) == Codes(rest);
        assert [] + AcceptedIn(k1, rest) == AcceptedIn(k1, rest);
      }
    }
  }

  lemma SameHead(a: seq<char>, b: seq<char>, x: seq<char>, y: seq<char>)
    requires (a == b || a == []) && |x| <= |y|
    ensures |a + x| <= |b + y| && (a + x == b + y <==> a == b && x == y)
  {
    if a + x == b + y && a == b {
      assert x == (a + x)[|a|..] && y == (b + y)[|b|..];
    }
  }

  /** keyboard_init, before any call. */
  const START: Kb := Kb(seq(SLOTS, i => '\0'), 0, 0, REST, Out)

  lemma StartInv()
    ensures Inv(START) && Pending(START) == []
  {
  }

  /** From keyboard_init: what was returned and what waits is the decoded stream, if the ring never overflowed. */
  lemma TypedIsRead(es: seq<Event>, ks: seq<Key>, shiftKey: byte)
    requires (shiftKey == LSHIFT || shiftKey == RSHIFT) && forall i :: 0 <= i < |ks| ==> IsKey(ks[i])
    requires Inv(START) && Codes(es) == StrikeAll(ks, shiftKey) && !EverFull(START, es)
    ensures ReturnedIn(START, es) + Pending(Run(START, es)) == Chars(ks)
  {
    hide Run, ReturnedIn, EverFull, StrikeAll, Codes, AcceptedIn, DecodeAll;
    ConsumerGetsAccepted(START, es);
    AcceptsAllIff(START, es);
    TypedDecodes(ks, shiftKey);
    assert Pending(START) == [];
    assert [] + AcceptedIn(START, es) == AcceptedIn(START, es);
  }

  // ---------------------------------------------------------------- sleeping

  /** An interrupt that decodes to a character leaves nobody asleep: a sleeper is back at its loop test. */
  lemma CharacterWakes(k: Kb, code: byte)
    requires Inv(k) && Decode(k.mode, code).1 != []
    ensures Step(k, Interrupt(code)).at == if k.at == Asleep then LoadHead else k.at
  {
  }

  /** So a consumer that fell asleep and was left there has seen no character since. */
  lemma {:induction false} StillAsleep(k: Kb, codes: seq<byte>)
    requires Inv(k) && k.at == Asleep
    ensures Run(k, Interrupts(codes)).at == Asleep <==> DecodeAll(k.mode, codes).1 == []
    decreases |codes|
  {
    hide Decode, Inv, Push, Woken;
    if codes != [] {
      var e := Interrupt(codes[0]);
      StepKeeps(k, e);
      StepMode(k, e);
      assert Interrupts(codes)[0] == e && Interrupts(codes)[1..] == Interrupts(codes[1..]);
      if Decode(k.mode, codes[0]).1 == [] {
        StillAsleep(Step(k, e), codes[1..]);
        assert [] + DecodeAll(Step(k, e).mode, codes[1..]).1 == DecodeAll(Step(k, e).mode, codes[1..]).1;
      } else {
        CharacterWakes(k, codes[0]);
        StaysUp(Step(k, e), codes[1..]);
      }
    }
  }

  lemma {:induction false} StaysUp(k: Kb, codes: seq<byte>)
    requires Inv(k) && k.at != Asleep
    ensures Run(k, Interrupts(codes)).at != Asleep
    decreases |codes|
  {
    hide Decode, Inv, Push, Woken;
    if codes != [] {
      var e := Interrupt(codes[0]);
      StepKeeps(k, e);
      NoiseLeavesPlace(k, e);
      assert Interrupts(codes)[0] == e && Interrupts(codes)[1..] == Interrupts(codes[1..]);
      StaysUp(Step(k, e), codes[1..]);
    }
  }

  /** Only interrupts, between the consumer's decision to sleep and the sleep. */
  function Interrupts(codes: seq<byte>): seq<Event>
    decreases |codes|
  {
    if codes == [] then [] else [Interrupt(codes[0])] + Interrupts(codes[1..])
  }

  lemma {:induction false} PendingGrows(k: Kb, codes: seq<byte>)
    requires Inv(k) && k.at == Sleep
    ensures Run(k, Interrupts(codes)).at == Sleep
    ensures Pending(Run(k, Interrupts(codes))) == [] <==> Pending(k) == [] && DecodeAll(k.mode, codes).1 == []
    decreases |codes|
  {
    hide Pending, Decode, Inv, Push;
    RingIsOk(k);
    if codes != [] {
      var e := Interrupt(codes[0]);
      StepKeeps(k, e);
      StepMode(k, e);
      StaysDeciding(k, codes[0]);
      RingIsOk(Step(k, e));
      assert Interrupts(codes)[0] == e && Interrupts(codes)[1..] == Interrupts(codes[1..]);
      PendingGrows(Step(k, e), codes[1..]);
    }
  }

  lemma StaysDeciding(k: Kb, code: byte)
    requires Inv(k) && k.at == Sleep
    ensures Step(k, Interrupt(code)).at == Sleep
  {
  }

  /**
    The test of keyboard_getchar and its process_block are not atomic.  A consumer that found the ring empty falls
    asleep with nothing waiting exactly if no character was decoded between its test and its block.
   */
  lemma MissesWakeUpIff(k: Kb, codes: seq<byte>)
    requires Inv(k) && k.at == LoadTail(k.tail)
    ensures Tick(k).at == Sleep && Inv(Tick(k))
    ensures var z := Run(Tick(k), Interrupts(codes));
            && Tick(z).at == Asleep && RingOk(Tick(z))
            && (Pending(Tick(z)) == [] <==> DecodeAll(k.mode, codes).1 == [])
  {
    hide Run, Interrupts, DecodeAll, Waiting;
    TickKeeps(k);
    PendingGrows(Tick(k), codes);
  }
}
