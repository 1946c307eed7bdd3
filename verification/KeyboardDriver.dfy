/** The keyboard (src/keyboard.c) as it is: the decoder's flags, the ring and its two
    indices, changed by the steps of the machine. */
module KeyboardDriver {
  import opened Basics
  import opened KeyboardModel

  class Driver {
    var shiftPressed: bool
    var extendedPrefix: bool
    const inputQueue: array<Event>
    var queueHead: nat
    var queueTail: nat
    /** The consumer's place between its three steps. */
    var phase: Phase
    ghost var model: Keyboard

    ghost predicate Valid()
      reads this, inputQueue
    {
      Linked() && Invariant(model)
    }

    /** The fields are the model's. */
    ghost predicate Linked()
      reads this, inputQueue
    {
      && model.decoder == Decoder(shiftPressed, extendedPrefix)
      && inputQueue.Length == 256 && model.slots == inputQueue[..]
      && model.head == queueHead < 256 && model.tail == queueTail < 256
      && model.phase == phase
    }

    constructor ()
      ensures Valid() && fresh(inputQueue)
      ensures |model.slots| == 256 && model == Reset(model.slots)
    {
      inputQueue := new Event[256](_ => Character('\0'));
      shiftPressed, extendedPrefix, queueHead, queueTail, phase := false, false, 0, 0, Idle;
      new;
      model := Reset(inputQueue[..]);
    }

    method QueueEvent(event: Event)
      requires Linked()
      modifies `queueHead, `model, inputQueue
      ensures Linked() && model == Enqueue(old(model), event)
    {
      model := Enqueue(model, event);
      var next := (queueHead + 1) % 256;
      if next != queueTail {
        inputQueue[queueHead] := event;
        queueHead := next;
      }
    }

    /** The decoding of a scancode: updates the two flags, and says what to enqueue. */
    method DecodeScancode(code: u8) returns (event: Option<Event>)
      modifies `shiftPressed, `extendedPrefix
      ensures (Decoder(shiftPressed, extendedPrefix), event)
           == Decode(Decoder(old(shiftPressed), old(extendedPrefix)), code)
    {
      if code == 0xE0 {
        extendedPrefix := true;
        return None;
      }
      if extendedPrefix {
        extendedPrefix := false;
        if code >= 0x80 {
          return None;
        }
        match code {
          case 0x48 => return Some(Up);
          case 0x50 => return Some(Down);
          case 0x4B => return Some(Left);
          case 0x4D => return Some(Right);
          case _ => return None;
        }
      }
      if code == 0x2A || code == 0x36 {
        shiftPressed := true;
        return None;
      }
      if code == 0xAA || code == 0xB6 {
        shiftPressed := false;
        return None;
      }
      if code >= 0x80 {
        return None;
      }
      var ascii := '\0';
      if code < 64 {
        ascii := if shiftPressed then SHIFTED[code] else PLAIN[code];
      }
      if ascii != '\0' {
        return Some(Character(ascii));
      }
      return None;
    }

    /** The interrupt handler. It may run in every phase of the consumer. */
    method ProcessScancode(code: u8)
      requires Valid()
      modifies `shiftPressed, `extendedPrefix, `queueHead, `model, inputQueue
      ensures Valid() && model == Step(old(model), Interrupt(code))
    {
      InterruptKeeps(model, code);
      DecodeAndQueue(code);
    }

    method DecodeAndQueue(code: u8)
      requires Linked()
      modifies `shiftPressed, `extendedPrefix, `queueHead, `model, inputQueue
      ensures Linked() && model == KeyboardModel.ProcessScancode(old(model), code)
    {
      var event := DecodeScancode(code);
      model := model.(decoder := Decoder(shiftPressed, extendedPrefix), codes := model.codes + [code]);
      if event.Some? {
        QueueEvent(event.value);
      }
    }

    method HasInput() returns (ready: bool)
      requires Valid()
      ensures ready <==> Pending(model.slots, model.head, model.tail) != []
    {
      assert |Pending(model.slots, model.head, model.tail)| == Count(queueHead, queueTail);
      ready := queueHead != queueTail;
    }

    // ----- the consumer's three steps

    method CheckInput()
      requires Valid() && phase == Idle
      modifies `phase, `model
      ensures Valid() && model == Step(old(model), Check)
    {
      StepKeeps(model, Check);
      var ready := HasInput();
      if ready {
        phase := Checked;
      }
      model := Step(model, Check);
    }

    method ReadSlot()
      requires Valid() && phase == Checked
      modifies `phase, `model
      ensures Valid() && model == Step(old(model), Read)
    {
      StepKeeps(model, Read);
      phase := Holding(inputQueue[queueTail]);
      model := Step(model, Read);
    }

    method AdvanceTail() returns (event: Event)
      requires Valid() && phase.Holding?
      modifies `queueTail, `phase, `model
      ensures Valid() && model == Step(old(model), Advance)
      ensures event == old(phase.event)
    {
      StepKeeps(model, Advance);
      event := phase.event;
      model := Step(model, Advance);
      queueTail := (queueTail + 1) % 256;
      phase := Idle;
    }

    /** The whole call: it waits while nothing is pending, `arrivals` being the scancodes
        that interrupts bring meanwhile, and takes the oldest event as soon as there is
        one. None when it would wait for further interrupts. */
    method GetEvent(arrivals: seq<u8>) returns (event: Option<Event>, ghost used: nat)
      requires Valid() && phase == Idle
      modifies this, inputQueue
      ensures Valid() && phase == Idle && used <= |arrivals|
      ensures forall n :: 0 <= n < used ==> Waits(Interrupted(old(model), arrivals[..n]))
      ensures event.None? ==>
                used == |arrivals| && model == Interrupted(old(model), arrivals) && Waits(model)
      ensures event.Some? ==>
                var k := Interrupted(old(model), arrivals[..used]);
                && !Waits(k) && model == AfterGet(k)
                && event.value == Pending(k.slots, k.head, k.tail)[0]
    {
      hide Invariant, Pending, AfterGet, Step, KeyboardModel.ProcessScancode;
      var next := 0;
      var ready := HasInput();
      while !ready && next < |arrivals|
        invariant Valid() && phase == Idle && next <= |arrivals|
        invariant model == Interrupted(old(model), arrivals[..next])
        invariant ready <==> !Waits(model)
        invariant forall n :: 0 <= n < next ==> Waits(Interrupted(old(model), arrivals[..n]))
      {
        assert arrivals[..next + 1] == arrivals[..next] + [arrivals[next]];
        InterruptedNext(old(model), arrivals[..next], arrivals[next]);
        ProcessScancode(arrivals[next]);
        next := next + 1;
        ready := HasInput();
      }
      used := next;
      assert arrivals[..|arrivals|] == arrivals;
      if !ready {
        return None, used;
      }
      var e := TakeEvent();
      event := Some(e);
    }

    /** The three steps with no interrupt between them: the oldest pending event. */
    method TakeEvent() returns (event: Event)
      requires Valid() && phase == Idle && !Waits(model)
      modifies `queueTail, `phase, `model
      ensures Valid() && phase == Idle
      ensures model == AfterGet(old(model))
      ensures event == Pending(old(model).slots, old(model).head, old(model).tail)[0]
    {
      hide Invariant, Pending, Step;
      GetTakesOldest(model);
      CheckInput();
      ReadSlot();
      event := AdvanceTail();
    }
  }

  /** Nothing is pending. */
  ghost predicate Waits(k: Keyboard)
    requires Invariant(k)
  {
    Pending(k.slots, k.head, k.tail) == []
  }
}
