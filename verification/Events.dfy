/**
 * The buffers that inotify fills: each event is a 16-byte header of four
 * little-endian words (watch, mask, cookie, name length) followed by its name.
 * Walking a buffer is proved to stay within bounds, to read back exactly the
 * events that were written, and to report the union of their flags.
 */
module Events {
  import opened Bytes

  type Word = n: nat | n < 0x1_0000_0000

  datatype Event = Event(watch: Word, mask: Word, cookie: Word, name: seq<Byte>) {
    predicate Valid() { |name| < 0x1_0000_0000 }
  }

  /** Whether bit number `bit` of a mask is set. */
  predicate Bit(mask: Word, power: nat)
    requires power > 0
  {
    mask / power % 2 == 1
  }

  const IN_MOVE_SELF: nat := 0x800
  const IN_DELETE_SELF: nat := 0x400
  const IN_Q_OVERFLOW: nat := 0x4000
  const IN_IGNORED: nat := 0x8000

  predicate Overflows(e: Event) {
    Bit(e.mask, IN_Q_OVERFLOW)
  }

  predicate Invalidates(e: Event) {
    Bit(e.mask, IN_IGNORED) || Bit(e.mask, IN_MOVE_SELF) || Bit(e.mask, IN_DELETE_SELF)
  }

  datatype DirectoryEvents = DirectoryEvents(changed: bool, overflowed: bool, invalidated: bool)

  const NO_EVENTS: DirectoryEvents := DirectoryEvents(false, false, false)

  /** The flags of `before` joined with those of a list of events. */
  ghost function Join(before: DirectoryEvents, events: seq<Event>): DirectoryEvents {
    DirectoryEvents(before.changed || events != [],
                    before.overflowed || exists e :: e in events && Overflows(e),
                    before.invalidated || exists e :: e in events && Invalidates(e))
  }

  // ---- Encoding ----

  function EncodeWord(n: Word): (s: seq<Byte>)
    ensures |s| == 4
  {
    [(n % 256) as Byte, (n / 256 % 256) as Byte, (n / 0x1_0000 % 256) as Byte, (n / 0x100_0000) as Byte]
  }

  function WordAt(s: seq<Byte>, i: nat): Word
    requires i + 4 <= |s|
  {
    s[i] as int + 256 * s[i + 1] as int + 0x1_0000 * s[i + 2] as int + 0x100_0000 * s[i + 3] as int
  }

  const HEADER_SIZE: nat := 16

  function Encode(e: Event): (s: seq<Byte>)
    requires e.Valid()
    ensures |s| == HEADER_SIZE + |e.name|
  {
    EncodeWord(e.watch) + EncodeWord(e.mask) + EncodeWord(e.cookie) + EncodeWord(|e.name|) + e.name
  }

  function EncodeAll(events: seq<Event>): seq<Byte>
    requires forall e :: e in events ==> e.Valid()
  {
    if events == [] then [] else Encode(events[0]) + EncodeAll(events[1..])
  }

  // ---- Decoding ----

  /** The events in front of a buffer, and whether they fill it. */
  datatype Walk = Walk(events: seq<Event>, whole: bool)

  function WalkEvents(buffer: seq<Byte>): Walk {
    if buffer == [] then Walk([], true)
    else if |buffer| < HEADER_SIZE || HEADER_SIZE + WordAt(buffer, 12) > |buffer| then Walk([], false)
    else
      var size := HEADER_SIZE + WordAt(buffer, 12);
      var e := Event(WordAt(buffer, 0), WordAt(buffer, 4), WordAt(buffer, 8), buffer[HEADER_SIZE..size]);
      var rest := WalkEvents(buffer[size..]);
      rest.(events := [e] + rest.events)
  }

  lemma WordRoundTrip(n: Word, s: seq<Byte>, i: nat)
    requires i + 4 <= |s| && s[i..i + 4] == EncodeWord(n)
    ensures WordAt(s, i) == n
  {
    var w := s[i..i + 4];
    assert s[i] == w[0] && s[i + 1] == w[1] && s[i + 2] == w[2] && s[i + 3] == w[3];
    assert n / 256 == n / 0x1_0000 * 256 + n / 256 % 256;
    assert n / 0x1_0000 == n / 0x100_0000 * 256 + n / 0x1_0000 % 256;
  }

  /** Where the parts of an encoded event lie. */
  lemma EncodedParts(e: Event, rest: seq<Byte>)
    requires e.Valid()
    ensures var s, size := Encode(e) + rest, HEADER_SIZE + |e.name|;
            && s[0..4] == EncodeWord(e.watch) && s[4..8] == EncodeWord(e.mask)
            && s[8..12] == EncodeWord(e.cookie) && s[12..16] == EncodeWord(|e.name|)
            && s[HEADER_SIZE..size] == e.name && s[size..] == rest
  {
    hide EncodeWord;
    var s, c := Encode(e) + rest, Encode(e);
    assert s[..|c|] == c;
    assert c[0..4] == EncodeWord(e.watch) && c[4..8] == EncodeWord(e.mask);
    assert c[8..12] == EncodeWord(e.cookie) && c[12..16] == EncodeWord(|e.name|);
    assert c[HEADER_SIZE..] == e.name;
  }

  lemma {:induction false} EventRoundTrip(e: Event, rest: seq<Byte>)
    requires e.Valid()
    ensures var s, w := Encode(e) + rest, WalkEvents(rest);
            WalkEvents(s) == w.(events := [e] + w.events)
  {
    hide Encode, EncodeWord, WordAt;
    var s := Encode(e) + rest;
    EncodedParts(e, rest);
    WordRoundTrip(e.watch, s, 0);
    WordRoundTrip(e.mask, s, 4);
    WordRoundTrip(e.cookie, s, 8);
    WordRoundTrip(|e.name|, s, 12);
  }

  /**
   * Reading back a buffer of whole events yields exactly those events, also when
   * the list is split over several buffers at event boundaries.
   */
  lemma {:induction false} EventsRoundTrip(events: seq<Event>, rest: seq<Byte>)
    requires forall e :: e in events ==> e.Valid()
    ensures var w := WalkEvents(rest);
            WalkEvents(EncodeAll(events) + rest) == w.(events := events + w.events)
    decreases |events|
  {
    hide Encode, WalkEvents;
    if events == [] {
      assert EncodeAll(events) + rest == rest;
    } else {
      var tail := EncodeAll(events[1..]) + rest;
      EventsRoundTrip(events[1..], rest);
      assert EncodeAll(events) + rest == Encode(events[0]) + tail;
      EventRoundTrip(events[0], tail);
      assert events + WalkEvents(rest).events == [events[0]] + (events[1..] + WalkEvents(rest).events);
    }
  }

  /**
   * Walks a buffer and joins the flags of its events to those collected before.
   * Fails on a truncated header or name, after the events in front of it.
   */
  method CollectDirectoryEvents(buffer: seq<Byte>, before: DirectoryEvents)
    returns (ok: bool, events: DirectoryEvents)
    ensures ok == WalkEvents(buffer).whole
    ensures events == Join(before, WalkEvents(buffer).events)
  {
    hide WordAt, Join;
    events := before;
    JoinNone(before);
    var offset := 0;
    ghost var seen: seq<Event> := [];
    while offset < |buffer|
      invariant 0 <= offset <= |buffer|
      invariant WalkEvents(buffer).events == seen + WalkEvents(buffer[offset..]).events
      invariant WalkEvents(buffer).whole == WalkEvents(buffer[offset..]).whole
      invariant events == Join(before, seen)
    {
      ghost var rest := buffer[offset..];
      if |buffer| - offset < HEADER_SIZE {
        assert seen + [] == seen;
        return false, events;
      }
      WordInRest(buffer, offset, 12);
      WordInRest(buffer, offset, 4);
      var eventSize := HEADER_SIZE + WordAt(buffer, offset + 12);
      if eventSize > |buffer| - offset {
        assert seen + [] == seen;
        return false, events;
      }
      var mask := WordAt(buffer, offset + 4);
      events := events.(changed := true);
      if Bit(mask, IN_Q_OVERFLOW) {
        events := events.(overflowed := true);
      }
      if Bit(mask, IN_IGNORED) || Bit(mask, IN_MOVE_SELF) || Bit(mask, IN_DELETE_SELF) {
        events := events.(invalidated := true);
      }
      ghost var e := WalkEvents(rest).events[0];
      assert e.mask == mask;
      JoinOne(before, seen, e);
      assert seen + WalkEvents(rest).events == seen + [e] + WalkEvents(rest[eventSize..]).events;
      assert rest[eventSize..] == buffer[offset + eventSize..];
      seen := seen + [e];
      offset := offset + eventSize;
    }
    assert buffer[offset..] == [];
    assert seen + [] == seen;
    ok := true;
  }

  lemma WordInRest(s: seq<Byte>, offset: nat, i: nat)
    requires offset + i + 4 <= |s|
    ensures WordAt(s[offset..], i) == WordAt(s, offset + i)
  {
  }

  lemma JoinNone(before: DirectoryEvents)
    ensures Join(before, []) == before
  {
  }

  /** The flags of a list of events, bit by bit. */
  lemma FlagsOf(events: seq<Event>)
    ensures Join(NO_EVENTS, events)
         == DirectoryEvents(events != [], exists e :: e in events && e.mask / 0x4000 % 2 == 1,
                            exists e :: e in events && (e.mask / 0x8000 % 2 == 1 || e.mask / 0x800 % 2 == 1
                                                        || e.mask / 0x400 % 2 == 1))
  {
    assert forall e :: e in events ==> (Overflows(e) <==> e.mask / 0x4000 % 2 == 1);
  }

  lemma JoinOne(before: DirectoryEvents, seen: seq<Event>, e: Event)
    ensures Join(before, seen + [e]) == Join(Join(before, seen), [e])
    ensures Join(before, seen + [e])
         == DirectoryEvents(true, Join(before, seen).overflowed || Overflows(e),
                            Join(before, seen).invalidated || Invalidates(e))
  {
    assert forall x :: x in seen + [e] <==> x in seen || x == e;
    assert e in [e] && e in seen + [e];
  }

  lemma JoinMore(before: DirectoryEvents, a: seq<Event>, b: seq<Event>)
    ensures Join(before, a + b) == Join(Join(before, a), b)
  {
    assert forall x :: x in a + b <==> x in a || x in b;
  }
}
