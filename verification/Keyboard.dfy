/**
  kernel/keyboard.c as imperative code: the ring, its indices and the flags changed in place by the handler and
  the consumer.
 */
module Keyboard {
  import opened Bytes
  import opened KeyboardSpec

  /** Everything that happens between two accesses of the consumer, one batch after another. */
  function Flat(env: seq<seq<Event>>): seq<Event> {
    if env == [] then [] else Flat(env[..|env| - 1]) + env[|env| - 1]
  }

  predicate Noise(es: seq<Event>) {
    forall i :: 0 <= i < |es| ==> !es[i].Consumer?
  }

  class Driver {
    const buf: array<char>
    var head: nat
    var tail: nat
    var shiftPressed: bool
    var extendedCode: bool
    /** The consuming process is BLOCKED. */
    var blocked: bool
    /** Where the consumer is inside keyboard_getchar, and everything that happened since keyboard_init. */
    ghost var at: Place
    ghost var history: seq<Event>

    ghost function View(): Kb
      reads this, buf
    {
      Kb(buf[..], head, tail, Mode(shiftPressed, extendedCode), at)
    }

    ghost predicate Valid()
      reads this, buf
    {
      Inv(START) && View() == Run(START, history) && (blocked <==> at == Asleep)
    }

    /** Every character keyboard_getchar has returned so far. */
    ghost function Received(): seq<char>
      requires Inv(START)
      reads this
    {
      ReturnedIn(START, history)
    }

    /** keyboard_init */
    constructor ()
      ensures Valid() && history == [] && at == Out && fresh(buf)
    {
      buf := new char[SLOTS](i => '\0');
      head, tail, shiftPressed, extendedCode, blocked := 0, 0, false, false, false;
      at, history := Out, [];
      new;
      StartInv();
      assert buf[..] == START.buf;
    }

    /** kb_push */
    method PushChar(c: char)
      requires RingOk(View()) && (blocked <==> at == Asleep)
      modifies this, buf
      ensures View() == Push(old(View()), c) && (blocked <==> at == Asleep) && history == old(history)
    {
      var next := (tail + 1) % SLOTS;
      if next != head {
        buf[tail] := c;
        tail := next;
      }
      WakeConsumer();
    }

    /** process_wake_all_blocked, as far as the consumer is concerned. */
    method WakeConsumer()
      requires blocked <==> at == Asleep
      modifies this`blocked, this`at
      ensures View() == Woken(old(View())) && (blocked <==> at == Asleep)
    {
      if blocked {
        blocked := false;
        at := LoadHead;
      }
    }

    /** keyboard_irq_handler with the scancode the port delivers. */
    method HandleIrq(code: byte)
      requires RingOk(View()) && (blocked <==> at == Asleep)
      modifies this, buf
      ensures View() == Irq(old(View()), code) && (blocked <==> at == Asleep) && history == old(history)
    {
      hide Push, Waiting;
      if code == 0xE0 {
        extendedCode := true;
        return;
      }
      if extendedCode {
        extendedCode := false;
        if code < 0x80 {
          var special := '\0';
          match code {
            case 0x48 => special := KEY_UP;
            case 0x50 => special := KEY_DOWN;
            case 0x4B => special := KEY_LEFT;
            case 0x4D => special := KEY_RIGHT;
            case _ =>
          }
          assert special == Special(code);
          if special != '\0' {
            PushChar(special);
          }
        }
        return;
      }
      if code >= 0x80 {
        var released := code - 0x80;
        if released == LSHIFT || released == RSHIFT {
          shiftPressed := false;
        }
        return;
      }
      if code == LSHIFT || code == RSHIFT {
        shiftPressed := true;
        return;
      }
      TableSizes();
      if code < |PLAIN| {
        var c := if shiftPressed then SHIFTED[code] else PLAIN[code];
        if c != '\0' {
          PushChar(c);
        }
      }
    }

    /** The event just carried out goes into the history. */
    ghost method Record(e: Event, k: Kb)
      requires Inv(START) && k == Run(START, history) && View() == Step(k, e) && (blocked <==> at == Asleep)
      modifies this`history
      ensures Valid() && history == old(history) + [e]
      ensures Received() == old(Received()) + Returned(k, e)
      ensures Outside(history) == Outside(old(history)) + if e.Consumer? then [] else [e]
    {
      hide Inv, Step, Run, ReturnedIn, Outside;
      RunSnoc(START, history, e);
      OutsideSnoc(history, e);
      history := history + [e];
    }

    /** One interrupt, or one wake-up from elsewhere. */
    method Happen(e: Event)
      requires Valid() && !e.Consumer?
      modifies this, buf
      ensures Valid() && (at == old(at) || (old(at) == Asleep && at == LoadHead))
      ensures Received() == old(Received()) && Outside(history) == Outside(old(history)) + [e]
    {
      hide Run, ReturnedIn, Outside, Waiting;
      ghost var k := View();
      RingIsOk(k);
      NoiseLeavesPlace(k, e);
      if e.Interrupt? {
        HandleIrq(e.code);
      } else {
        WakeConsumer();
      }
      Record(e, k);
      assert old(Received()) + [] == old(Received());
    }

    /** Everything of batch n of env, if there is one. */
    method Pause(env: seq<seq<Event>>, n: nat, ghost before: seq<Event>) returns (m: nat)
      requires Valid() && n <= |env| && forall k :: 0 <= k < |env| ==> Noise(env[k])
      requires Outside(history) == before + Flat(env[..n])
      modifies this, buf
      ensures Valid() && n <= m <= |env| && (n < |env| ==> n < m)
      ensures at == old(at) || (old(at) == Asleep && at == LoadHead)
      ensures Received() == old(Received()) && Outside(history) == before + Flat(env[..m])
    {
      hide Run, ReturnedIn, Outside, Inv, Flat;
      m := n;
      if n == |env| {
        return;
      }
      var batch := env[n];
      for i := 0 to |batch|
        invariant Valid() && (at == old(at) || (old(at) == Asleep && at == LoadHead))
        invariant Received() == old(Received()) && Outside(history) == before + Flat(env[..n]) + batch[..i]
      {
        Happen(batch[i]);
        assert batch[..i + 1] == batch[..i] + [batch[i]];
      }
      m := n + 1;
      FlatSnoc(env, n);
      assert batch[..|batch|] == batch;
      assert before + Flat(env[..n]) + batch == before + (Flat(env[..n]) + batch);
    }

    // The accesses of keyboard_getchar to the shared variables, each a step of its own.

    method ReadHead() returns (h: nat)
      requires Valid() && (at == LoadHead || at == IndexHead || at.BumpHead?)
      modifies this`at, this`history
      ensures Valid() && h == head && at == Tick(old(View())).at && Untouched(old(View()))
      ensures Received() == old(Received()) && Outside(history) == Outside(old(history))
    {
      h := head;
      Move();
    }

    method ReadTail() returns (t: nat)
      requires Valid() && at.LoadTail?
      modifies this`at, this`history
      ensures Valid() && t == tail && at == Tick(old(View())).at && Untouched(old(View()))
      ensures Received() == old(Received()) && Outside(history) == Outside(old(history))
    {
      t := tail;
      Move();
    }

    method ReadSlot(h: nat) returns (c: char)
      requires Valid() && at == LoadChar(h)
      modifies this`at, this`history
      ensures Valid() && at == BumpHead(c) && Untouched(old(View()))
      ensures Received() == old(Received()) && Outside(history) == Outside(old(history))
    {
      PlaceIsOk(View());
      c := buf[h];
      Move();
    }

    /** A step of the consumer that changes nothing but where it is. */
    ghost method Move()
      requires Valid() && !at.StoreHead? && at != Sleep
      modifies this`at, this`history
      ensures Valid() && View() == Tick(old(View())) && Untouched(old(View()))
      ensures Received() == old(Received()) && Outside(history) == Outside(old(history))
    {
      hide Run, ReturnedIn, Outside, Waiting;
      ghost var k := View();
      at := Tick(k).at;
      Record(Consumer, k);
      assert old(Received()) + [] == old(Received()) && Outside(old(history)) + [] == Outside(old(history));
    }

    /** Ring and modes are those of k. */
    ghost predicate Untouched(k: Kb)
      reads this, buf
    {
      View() == k.(at := at)
    }

    method WriteHead(h: nat, c: char)
      requires Valid() && at == StoreHead(c, h)
      modifies this`head, this`at, this`history
      ensures Valid() && at == Out && !blocked && Received() == old(Received()) + [c]
      ensures Outside(history) == Outside(old(history))
    {
      hide Run, ReturnedIn, Outside, Waiting;
      ghost var k := View();
      head := (h + 1) % SLOTS;
      at := Out;
      Record(Consumer, k);
      assert Outside(old(history)) + [] == Outside(old(history));
    }

    /** process_block, or the halt where there is no process: asleep until something is pushed. */
    method Block()
      requires Valid() && at == Sleep
      modifies this`blocked, this`at, this`history
      ensures Valid() && at == Asleep && Untouched(old(View()))
      ensures Received() == old(Received()) && Outside(history) == Outside(old(history))
    {
      hide Run, ReturnedIn, Outside, Waiting;
      ghost var k := View();
      blocked := true;
      at := Asleep;
      Record(Consumer, k);
      assert old(Received()) + [] == old(Received()) && Outside(old(history)) + [] == Outside(old(history));
    }

    /** The loop test: both indices, read one after the other. */
    method Test(env: seq<seq<Event>>, n: nat, ghost before: seq<Event>) returns (empty: bool, m: nat)
      requires Valid() && at == LoadHead && n <= |env| && forall k :: 0 <= k < |env| ==> Noise(env[k])
      requires Outside(history) == before + Flat(env[..n])
      modifies this, buf
      ensures Valid() && n <= m <= |env| && at == if empty then Sleep else IndexHead
      ensures Received() == old(Received()) && Outside(history) == before + Flat(env[..m])
    {
      hide Run, ReturnedIn, Outside, Inv, Flat;
      m := Pause(env, n, before);
      var h := ReadHead();
      m := Pause(env, m, before);
      var t := ReadTail();
      empty := h == t;
    }

    /** The loop of keyboard_getchar: test, and sleep while there is nothing; not ready when env runs out first. */
    method Await(env: seq<seq<Event>>, n: nat, ghost before: seq<Event>) returns (ready: bool, m: nat)
      requires Valid() && at == LoadHead && n <= |env| && forall k :: 0 <= k < |env| ==> Noise(env[k])
      requires Outside(history) == before + Flat(env[..n])
      modifies this, buf
      ensures Valid() && n <= m <= |env| && (if ready then at == IndexHead else blocked && m == |env|)
      ensures Received() == old(Received()) && Outside(history) == before + Flat(env[..m])
    {
      hide Run, ReturnedIn, Outside, Inv, Flat;
      var empty;
      empty, m := Test(env, n, before);
      while empty
        invariant Valid() && n <= m <= |env| && at == if empty then Sleep else IndexHead
        invariant Received() == old(Received()) && Outside(history) == before + Flat(env[..m])
        decreases |env| - m
      {
        m := Pause(env, m, before);
        Block();
        ready, m := SleepUntilWoken(env, m, before);
        if !ready {
          return;
        }
        empty, m := Test(env, m, before);
      }
      ready := true;
    }

    /** Blocked until something wakes the consumer, or until env runs out. */
    method SleepUntilWoken(env: seq<seq<Event>>, n: nat, ghost before: seq<Event>) returns (woken: bool, m: nat)
      requires Valid() && at == Asleep && n <= |env| && forall k :: 0 <= k < |env| ==> Noise(env[k])
      requires Outside(history) == before + Flat(env[..n])
      modifies this, buf
      ensures Valid() && n <= m <= |env| && (if woken then at == LoadHead && n < m else blocked && m == |env|)
      ensures Received() == old(Received()) && Outside(history) == before + Flat(env[..m])
    {
      hide Run, ReturnedIn, Outside, Inv, Flat;
      m := n;
      while blocked
        invariant Valid() && n <= m <= |env| && (at == Asleep || (at == LoadHead && n < m))
        invariant Received() == old(Received()) && Outside(history) == before + Flat(env[..m])
        decreases |env| - m
      {
        if m == |env| {
          return false, m;
        }
        m := Pause(env, m, before);
      }
      woken := true;
    }

    /** The rest of keyboard_getchar: the character under the head, and the head moved on. */
    method TakeChar(env: seq<seq<Event>>, n: nat, ghost before: seq<Event>) returns (c: char, m: nat)
      requires Valid() && at == IndexHead && n <= |env| && forall k :: 0 <= k < |env| ==> Noise(env[k])
      requires Outside(history) == before + Flat(env[..n])
      modifies this, buf
      ensures Valid() && n <= m <= |env| && at == Out
      ensures Received() == old(Received()) + [c] && Outside(history) == before + Flat(env[..m])
    {
      hide Run, ReturnedIn, Outside, Inv, Flat;
      m := Pause(env, n, before);
      var h := ReadHead();
      m := Pause(env, m, before);
      c := ReadSlot(h);
      m := Pause(env, m, before);
      h := ReadHead();
      m := Pause(env, m, before);
      WriteHead(h, c);
    }

    /**
      keyboard_getchar, with env saying what happens before each of its accesses.  Either a character is returned,
      appended to those received before, or env has run out while the consumer is asleep.
     */
    method GetChar(env: seq<seq<Event>>) returns (got: bool, c: char, used: nat)
      requires Valid() && at == Out && forall k :: 0 <= k < |env| ==> Noise(env[k])
      modifies this, buf
      ensures Valid() && used <= |env| && Outside(history) == Outside(old(history)) + Flat(env[..used])
      ensures got ==> at == Out && Received() == old(Received()) + [c]
      ensures !got ==> used == |env| && blocked && Received() == old(Received())
    {
      hide Run, ReturnedIn, Outside, Inv;
      ghost var before := Outside(history);
      assert before + Flat(env[..0]) == before;
      Move();
      c := '\0';
      got, used := Await(env, 0, before);
      if got {
        c, used := TakeChar(env, used, before);
      }
    }
  }

  lemma FlatSnoc(env: seq<seq<Event>>, n: nat)
    requires n < |env|
    ensures Flat(env[..n + 1]) == Flat(env[..n]) + env[n]
  {
    assert env[..n + 1][..n] == env[..n];
  }

  lemma PlaceIsOk(k: Kb)
    requires Inv(k) && k.at.LoadChar?
    ensures k.at.head == k.head < SLOTS == |k.buf|
  {
  }
}
