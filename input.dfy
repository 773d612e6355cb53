/** Keyboard input: the evdev key codes the game reacts to, the filter
    `handle_input` that keeps only key presses, and the order in which the
    reader thread sends the kept keys over the channel. */
module Input {

  /** An evdev key code (a 16-bit value). */
  newtype Key = k: int | 0 <= k < 0x1_0000

  const KEY_ESC: Key := 1
  const KEY_D: Key := 32
  const KEY_J: Key := 36
  const KEY_LEFT: Key := 105
  const KEY_RIGHT: Key := 106

  /** The transition value of a key event. */
  const RELEASED: int := 0
  const PRESSED: int := 1
  const REPEATED: int := 2

  /** The decoded kind of a raw event: a key, or any other event type
      (synchronisation, relative axis, ...), identified by its type number. */
  datatype EventKind = KeyKind(key: Key) | OtherKind(eventType: int)

  datatype InputEvent = InputEvent(kind: EventKind, value: int)

  /** An event `handle_input` keeps: a key whose value is "pressed". */
  predicate IsPress(e: InputEvent) {
    e.kind.KeyKind? && e.value == PRESSED
  }

  /** `handle_input`: the key of every key-press event, in event order. */
  function HandleInput(events: seq<InputEvent>): (keys: seq<Key>)
    ensures |keys| <= |events|
    ensures (forall i :: 0 <= i < |events| ==> !IsPress(events[i])) ==> keys == []
  {
    if events == [] then []
    else
      var kept := match events[0].kind
        case KeyKind(key) => if events[0].value == PRESSED then [key] else []
        case OtherKind(_) => [];
      kept + HandleInput(events[1..])
  }

  /** Filtering distributes over concatenation, so the relative order of the
      kept keys is the order of their events. */
  lemma {:induction false} HandleInputAppend(a: seq<InputEvent>, b: seq<InputEvent>)
    ensures HandleInput(a + b) == HandleInput(a) + HandleInput(b)
  {
    if a != [] {
      assert (a + b)[1..] == a[1..] + b;
      HandleInputAppend(a[1..], b);
    } else {
      assert a + b == b;
    }
  }

  /** A key is produced exactly when some event presses it. */
  lemma {:induction false} HandleInputMembers(events: seq<InputEvent>, k: Key)
    ensures k in HandleInput(events) <==>
      exists i :: 0 <= i < |events| && events[i] == InputEvent(KeyKind(k), PRESSED)
  {
    if events != [] {
      HandleInputMembers(events[1..], k);
      if k in HandleInput(events[1..]) {
        var i :| 0 <= i < |events[1..]| && events[1..][i] == InputEvent(KeyKind(k), PRESSED);
        assert events[i + 1] == InputEvent(KeyKind(k), PRESSED);
      }
      if exists i :: 0 <= i < |events| && events[i] == InputEvent(KeyKind(k), PRESSED) {
        var i :| 0 <= i < |events| && events[i] == InputEvent(KeyKind(k), PRESSED);
        if i > 0 {
          assert events[1..][i - 1] == events[i];
        }
      }
    }
  }

  /** When every event is a press, every event yields its key, in order. */
  lemma {:induction false} HandleInputKeepsPresses(events: seq<InputEvent>)
    requires forall i :: 0 <= i < |events| ==> IsPress(events[i])
    ensures |HandleInput(events)| == |events|
    ensures forall i :: 0 <= i < |events| ==> HandleInput(events)[i] == events[i].kind.key
  {
    if events != [] {
      HandleInputKeepsPresses(events[1..]);
    }
  }

  /** The batches fetched by the reader thread, joined in fetch order. */
  function Flatten(batches: seq<seq<InputEvent>>): seq<InputEvent> {
    if batches == [] then [] else batches[0] + Flatten(batches[1..])
  }

  /** What the reader thread sends: for each fetched batch, the keys
      `handle_input` keeps, one send per key. */
  function Sent(batches: seq<seq<InputEvent>>): (keys: seq<Key>)
    ensures |keys| <= |Flatten(batches)|
  {
    if batches == [] then [] else HandleInput(batches[0]) + Sent(batches[1..])
  }

  /** The channel carries exactly the key presses of all fetched events, in
      the order the events were fetched. */
  lemma {:induction false} SentIsFilterOfAllEvents(batches: seq<seq<InputEvent>>)
    ensures Sent(batches) == HandleInput(Flatten(batches))
  {
    if batches != [] {
      SentIsFilterOfAllEvents(batches[1..]);
      HandleInputAppend(batches[0], Flatten(batches[1..]));
    }
  }
}
