/**
 * The decoded Standard MIDI File, as the external SMF codec hands it over:
 * a sequence of tracks, each an ordered list of events. Only meta-events can
 * carry a text payload, and only those whose Go struct has a settable `Text`
 * field do.
 */
module Midi {
  import opened Wrappers

  /**
   * One event of a track. `NonMeta` stands for every channel or system event;
   * `Meta` for a meta-event, whose `text` is `Some` exactly when its struct has a
   * valid, settable `Text` field (track name, lyric, marker, ...).
   */
  datatype Event =
    | NonMeta(delta: nat, data: seq<bv8>)
    | Meta(delta: nat, metaType: bv8, text: Option<string>)

  /** The capability the visitor looks for: a meta-event with a text field. */
  predicate HasText(e: Event)
  {
    e.Meta? && e.text.Some?
  }

  /** Everything about `e'` equals `e` except, for a text-bearing event, its text. */
  predicate OnlyTextChanged(e: Event, e': Event)
  {
    if HasText(e) then HasText(e') && e' == e.(text := e'.text) else e' == e
  }

  type Track = seq<Event>

  /** The decoded sequence; the converter rewrites its text fields in place. */
  class Sequence {
    var tracks: seq<Track>
  }

  /** The text payloads of one track's events, in event order. */
  function TrackFields(events: seq<Event>): seq<string>
  {
    if events == [] then []
    else (if HasText(events[0]) then [events[0].text.value] else []) + TrackFields(events[1..])
  }

  /** All text payloads of a sequence, in track-then-event order: the visiting order. */
  function Fields(tracks: seq<Track>): seq<string>
  {
    if tracks == [] then [] else TrackFields(tracks[0]) + Fields(tracks[1..])
  }

  lemma {:induction false} TrackFieldsAppend(a: seq<Event>, b: seq<Event>)
    ensures TrackFields(a + b) == TrackFields(a) + TrackFields(b)
  {
    if a == [] {
      assert a + b == b;
    } else {
      assert (a + b)[1..] == a[1..] + b;
      TrackFieldsAppend(a[1..], b);
    }
  }

  /** The fields of the first j + 1 events: those of the first j, then event j's. */
  lemma TrackFieldsSnoc(events: seq<Event>, j: nat)
    requires j < |events|
    ensures TrackFields(events[..j + 1]) ==
      TrackFields(events[..j]) + (if HasText(events[j]) then [events[j].text.value] else [])
  {
    TrackFieldsAppend(events[..j], [events[j]]);
    assert events[..j + 1] == events[..j] + [events[j]];
    assert [events[j]][1..] == [];
  }

  lemma {:induction false} FieldsAppend(a: seq<Track>, b: seq<Track>)
    ensures Fields(a + b) == Fields(a) + Fields(b)
  {
    if a == [] {
      assert a + b == b;
    } else {
      assert (a + b)[1..] == a[1..] + b;
      FieldsAppend(a[1..], b);
    }
  }
}
