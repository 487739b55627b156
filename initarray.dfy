/** InitArraySectionContent: the init array, a list of pointer-sized
    addresses each produced by a thunk at serialise time, together with a
    separate list of callbacks that serialisation runs, in registration
    order, for the generator's own follow-up work. */
module InitArray {
  import opened Deferred

  /** One step of serialisation, as the outside world sees it: a callback
      run, or a slot's word written. */
  datatype Event = CallbackRan(callback: nat) | PointerWritten(pointer: nat, word: Word)

  /** The events of running `callbacks` in order. */
  function CallbackEvents(callbacks: seq<nat>): (e: seq<Event>)
    ensures |e| == |callbacks|
    ensures forall i :: 0 <= i < |e| ==> e[i] == CallbackRan(callbacks[i])
  {
    seq(|callbacks|, i requires 0 <= i < |callbacks| => CallbackRan(callbacks[i]))
  }

  /** The events of writing one word per slot, in slot order. */
  function PointerEvents(pointers: seq<nat>, thunk: nat -> Word): (e: seq<Event>)
    ensures |e| == |pointers|
    ensures forall i :: 0 <= i < |e| ==> e[i] == PointerWritten(pointers[i], thunk(pointers[i]))
  {
    seq(|pointers|, i requires 0 <= i < |pointers| => PointerWritten(pointers[i], thunk(pointers[i])))
  }

  class InitArraySectionContent {
    /** Handles of the address thunks, one per slot (the source's `array`). */
    var pointers: seq<nat>
    /** Handles of the callbacks, in registration order. */
    var callbacks: seq<nat>

    constructor ()
      ensures pointers == [] && callbacks == []
    {
      pointers := [];
      callbacks := [];
    }

    /** addPointer: appends one slot; the callbacks are untouched. */
    method AddPointer(func: nat)
      modifies this`pointers
      ensures pointers == old(pointers) + [func]
    {
      pointers := pointers + [func];
    }

    /** addCallback: appends one callback; the slots are untouched. */
    method AddCallback(func: nat)
      modifies this`callbacks
      ensures callbacks == old(callbacks) + [func]
    {
      callbacks := callbacks + [func];
    }

    /** getSize: one pointer width per slot, whatever the callbacks. */
    function GetSize(): (n: nat)
      reads this`pointers
      ensures n % POINTER_WIDTH == 0 && n / POINTER_WIDTH == |pointers|
    {
      |pointers| * POINTER_WIDTH
    }

    /** writeTo: runs every callback, in registration order, then writes one
        address per slot, each produced by its thunk. Returns the words
        written and the trace of what happened, in order. */
    method WriteTo(thunk: nat -> Word) returns (words: seq<Word>, trace: seq<Event>)
      ensures trace == CallbackEvents(callbacks) + PointerEvents(pointers, thunk)
      ensures forall i, j :: 0 <= i < j < |trace| && trace[j].CallbackRan? ==> trace[i].CallbackRan?
      ensures |words| == |pointers| && |words| * POINTER_WIDTH == GetSize()
      ensures forall i :: 0 <= i < |pointers| ==> words[i] == thunk(pointers[i])
    {
      trace := [];
      var k := 0;
      while k < |callbacks|
        invariant 0 <= k <= |callbacks|
        invariant trace == CallbackEvents(callbacks[..k])
      {
        trace := trace + [CallbackRan(callbacks[k])];
        k := k + 1;
      }
      assert callbacks[..k] == callbacks;
      words := [];
      var i := 0;
      while i < |pointers|
        invariant 0 <= i <= |pointers|
        invariant |words| == i
        invariant forall j :: 0 <= j < i ==> words[j] == thunk(pointers[j])
        invariant trace == CallbackEvents(callbacks) + PointerEvents(pointers[..i], thunk)
      {
        var w := thunk(pointers[i]);
        assert pointers[..i + 1] == pointers[..i] + [pointers[i]];
        words := words + [w];
        trace := trace + [PointerWritten(pointers[i], w)];
        i := i + 1;
      }
      assert pointers[..i] == pointers;
    }
  }

  /** The init array's size counts pointers only: registering a callback leaves
      it unchanged, registering a pointer grows it by one pointer width. */
  method SizeIgnoresCallbacks(content: InitArraySectionContent, pointer: nat, callback: nat)
    returns (before: nat, afterCallback: nat, afterPointer: nat)
    modifies content
    ensures afterCallback == before
    ensures afterPointer == before + POINTER_WIDTH
  {
    before := content.GetSize();
    content.AddCallback(callback);
    afterCallback := content.GetSize();
    content.AddPointer(pointer);
    afterPointer := content.GetSize();
  }
}
