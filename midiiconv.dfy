/**
 * The library half of midiiconv: the text-field visitor in its two uses,
 * fail-fast in-place conversion (`Iconv`) and read-only charset detection
 * (`Detect`). The encoding converter and the charset detector are foreign
 * libraries and appear as function-valued parameters.
 */
module MidiIconv {
  import opened Wrappers
  import opened Midi

  /**
   * The visitor used by `Iconv`: the foreign converter applied as
   * `convert(text, from, to)`, followed by the string post-process `post`.
   */
  datatype Converter = Converter(
    convert: (string, string, string) -> Result<string, Error>,
    from: string,
    to: string,
    post: string -> string)
  {
    /** The raw result of the foreign converter on one field. */
    function Convert(text: string): Result<string, Error>
    {
      convert(text, from, to)
    }
  }

  /** The post-process to use when no post-processing is wanted: it returns its argument. */
  function DefaultStringProcess(str: string): (r: string)
    ensures r == str
  {
    str
  }

  // ---------------------------------------------------------------------------
  // Reference definitions of the fail-fast conversion pass
  // ---------------------------------------------------------------------------

  /**
   * The pass on the flat list of fields in visiting order: fields are replaced
   * by their processed conversion until the first failure, which stops the pass;
   * that field and all later ones keep their text.
   */
  function ConvertFields(fields: seq<string>, c: Converter): (r: (seq<string>, Option<Error>))
    ensures |r.0| == |fields|
  {
    if fields == [] then ([], None)
    else match c.Convert(fields[0])
      case Err(x) => (fields, Some(x))
      case Ok(ns) =>
        var rest := ConvertFields(fields[1..], c);
        ([c.post(ns)] + rest.0, rest.1)
  }

  /** The position of the first field whose conversion fails, or |fields| if none does. */
  function FirstFailure(fields: seq<string>, c: Converter): (k: nat)
    ensures k <= |fields|
    ensures forall n :: 0 <= n < k ==> c.Convert(fields[n]).Ok?
    ensures k < |fields| ==> c.Convert(fields[k]).Err?
  {
    if fields == [] || c.Convert(fields[0]).Err? then 0
    else 1 + FirstFailure(fields[1..], c)
  }

  /**
   * What the visitor does with one event: an event without a settable text field
   * is passed over; a text field is replaced by its processed conversion, and a
   * failed conversion is reported with the converter's own error.
   */
  function ConvertEvent(e: Event, c: Converter): (r: Result<Event, Error>)
    ensures r.Ok? <==> !HasText(e) || c.Convert(e.text.value).Ok?
    ensures r.Ok? ==> OnlyTextChanged(e, r.value)
    ensures r.Ok? && HasText(e) ==> r.value.text == Some(c.post(c.Convert(e.text.value).value))
    ensures r.Err? ==> HasText(e) && r.error == c.Convert(e.text.value).error
  {
    if HasText(e) then
      match c.Convert(e.text.value)
      case Err(x) => Err(x)
      case Ok(ns) => Ok(e.(text := Some(c.post(ns))))
    else Ok(e)
  }

  /** The pass over one track: the events in order, stopping at the first failure. */
  function ConvertEvents(events: seq<Event>, c: Converter): (r: (seq<Event>, Option<Error>))
    ensures |r.0| == |events|
  {
    if events == [] then ([], None)
    else match ConvertEvent(events[0], c)
      case Err(x) => (events, Some(x))
      case Ok(e) =>
        var rest := ConvertEvents(events[1..], c);
        ([e] + rest.0, rest.1)
  }

  /** The pass over a whole sequence: tracks in order, stopping at the first failure. */
  function ConvertTracks(tracks: seq<Track>, c: Converter): (r: (seq<Track>, Option<Error>))
    ensures |r.0| == |tracks|
  {
    if tracks == [] then ([], None)
    else
      var first := ConvertEvents(tracks[0], c);
      if first.1.Some? then ([first.0] + tracks[1..], first.1)
      else
        var rest := ConvertTracks(tracks[1..], c);
        ([first.0] + rest.0, rest.1)
  }

  /**
   * The pass over one track changes nothing but the text of text-bearing meta-events:
   * other events, and meta-events without a text field, are left as they are.
   */
  lemma {:induction false} ConvertEventsShape(events: seq<Event>, c: Converter)
    ensures var r := ConvertEvents(events, c).0;
      forall j :: 0 <= j < |events| ==> OnlyTextChanged(events[j], r[j])
  {
    if events != [] {
      var r := ConvertEvents(events, c).0;
      var e := events[0];
      match ConvertEvent(e, c)
      case Err(_) =>
        assert r == events;
      case Ok(e') =>
        ConvertEventsShape(events[1..], c);
        assert r[1..] == ConvertEvents(events[1..], c).0;
        assert r[0] == e';
        forall j | 1 <= j < |events| ensures OnlyTextChanged(events[j], r[j]) {
          assert events[j] == events[1..][j - 1] && r[j] == r[1..][j - 1];
        }
    }
  }

  /**
   * The pass keeps the number of tracks and of events in each track, and changes
   * nothing but the text of text-bearing meta-events.
   */
  lemma {:induction false} ConvertTracksShape(tracks: seq<Track>, c: Converter)
    ensures var r := ConvertTracks(tracks, c).0;
      forall i :: 0 <= i < |tracks| ==>
        |r[i]| == |tracks[i]| &&
        forall j :: 0 <= j < |tracks[i]| ==> OnlyTextChanged(tracks[i][j], r[i][j])
  {
    if tracks != [] {
      var r := ConvertTracks(tracks, c).0;
      var first := ConvertEvents(tracks[0], c);
      ConvertEventsShape(tracks[0], c);
      assert r[0] == first.0;
      if first.1.None? {
        ConvertTracksShape(tracks[1..], c);
        assert r[1..] == ConvertTracks(tracks[1..], c).0;
      } else {
        assert r[1..] == tracks[1..];
        forall i | 1 <= i < |tracks|
          ensures forall j :: 0 <= j < |tracks[i]| ==> OnlyTextChanged(tracks[i][j], r[i][j])
        {
          assert r[i] == tracks[i];
        }
      }
    }
  }

  // ---------------------------------------------------------------------------
  // Properties of the conversion pass
  // ---------------------------------------------------------------------------

  /**
   * Fail-fast on the flat field list: the pass succeeds exactly when every field
   * converts; otherwise it reports the error of the first failing field k; fields
   * before k hold post(convert(old)) and fields from k on keep their text.
   */
  lemma {:induction false} ConvertFieldsFailFast(fields: seq<string>, c: Converter)
    ensures var k := FirstFailure(fields, c);
      var r := ConvertFields(fields, c);
      && (r.1 == None <==> k == |fields|)
      && (k < |fields| ==> r.1 == Some(c.Convert(fields[k]).error))
      && (forall n :: 0 <= n < k ==> r.0[n] == c.post(c.Convert(fields[n]).value))
      && (forall n :: k <= n < |fields| ==> r.0[n] == fields[n])
  {
    if fields != [] && c.Convert(fields[0]).Ok? {
      ConvertFieldsFailFast(fields[1..], c);
      var r := ConvertFields(fields, c);
      var r' := ConvertFields(fields[1..], c);
      assert r.0 == [c.post(c.Convert(fields[0]).value)] + r'.0;
      forall n | 1 <= n < |fields|
        ensures r.0[n] == r'.0[n - 1] && fields[n] == fields[1..][n - 1]
      {
      }
    }
  }

  /** Composition of the flat pass over a concatenation. */
  lemma {:induction false} ConvertFieldsAppend(a: seq<string>, b: seq<string>, c: Converter)
    ensures var ra := ConvertFields(a, c);
      ConvertFields(a + b, c) ==
        if ra.1.Some? then (ra.0 + b, ra.1)
        else (ra.0 + ConvertFields(b, c).0, ConvertFields(b, c).1)
  {
    if a == [] {
      assert a + b == b;
      assert [] + ConvertFields(b, c).0 == ConvertFields(b, c).0;
    } else {
      assert (a + b)[0] == a[0];
      assert (a + b)[1..] == a[1..] + b;
      if c.Convert(a[0]).Ok? {
        var head := [c.post(c.Convert(a[0]).value)];
        var ra', rb := ConvertFields(a[1..], c), ConvertFields(b, c);
        ConvertFieldsAppend(a[1..], b, c);
        assert head + (ra'.0 + b) == (head + ra'.0) + b;
        assert head + (ra'.0 + rb.0) == (head + ra'.0) + rb.0;
      }
    }
  }

  /** Composition of the pass over one track's events. */
  lemma {:induction false} ConvertEventsAppend(a: seq<Event>, b: seq<Event>, c: Converter)
    ensures var ra := ConvertEvents(a, c);
      ConvertEvents(a + b, c) ==
        if ra.1.Some? then (ra.0 + b, ra.1)
        else (ra.0 + ConvertEvents(b, c).0, ConvertEvents(b, c).1)
  {
    if a == [] {
      assert a + b == b;
      assert [] + ConvertEvents(b, c).0 == ConvertEvents(b, c).0;
    } else {
      assert (a + b)[0] == a[0];
      assert (a + b)[1..] == a[1..] + b;
      if ConvertEvent(a[0], c).Ok? {
        var head := [ConvertEvent(a[0], c).value];
        var ra', rb := ConvertEvents(a[1..], c), ConvertEvents(b, c);
        ConvertEventsAppend(a[1..], b, c);
        assert head + (ra'.0 + b) == (head + ra'.0) + b;
        assert head + (ra'.0 + rb.0) == (head + ra'.0) + rb.0;
      }
    }
  }

  /** Composition of the pass over tracks. */
  lemma {:induction false} ConvertTracksAppend(a: seq<Track>, b: seq<Track>, c: Converter)
    ensures var ra := ConvertTracks(a, c);
      ConvertTracks(a + b, c) ==
        if ra.1.Some? then (ra.0 + b, ra.1)
        else (ra.0 + ConvertTracks(b, c).0, ConvertTracks(b, c).1)
  {
    if a == [] {
      assert a + b == b;
      assert [] + ConvertTracks(b, c).0 == ConvertTracks(b, c).0;
    } else {
      assert (a + b)[0] == a[0];
      assert (a + b)[1..] == a[1..] + b;
      var head := [ConvertEvents(a[0], c).0];
      if ConvertEvents(a[0], c).1.None? {
        var ra', rb := ConvertTracks(a[1..], c), ConvertTracks(b, c);
        ConvertTracksAppend(a[1..], b, c);
        assert head + (ra'.0 + b) == (head + ra'.0) + b;
        assert head + (ra'.0 + rb.0) == (head + ra'.0) + rb.0;
      } else {
        assert head + (a[1..] + b) == (head + a[1..]) + b;
      }
    }
  }

  /** Viewed through its text fields, the pass over a track is the flat pass. */
  lemma {:induction false} ConvertEventsFields(events: seq<Event>, c: Converter)
    ensures var r := ConvertEvents(events, c);
      var f := ConvertFields(TrackFields(events), c);
      TrackFields(r.0) == f.0 && r.1 == f.1
  {
    if events != [] {
      var e := events[0];
      ConvertEventsFields(events[1..], c);
      var r := ConvertEvents(events, c);
      if HasText(e) {
        assert TrackFields(events) == [e.text.value] + TrackFields(events[1..]);
        if ConvertEvent(e, c).Ok? {
          assert r.0[1..] == ConvertEvents(events[1..], c).0;
          assert HasText(r.0[0]);
        }
      } else {
        assert TrackFields(events) == TrackFields(events[1..]);
        assert r.0[1..] == ConvertEvents(events[1..], c).0;
        assert r.0[0] == e;
      }
    }
  }

  /** Viewed through its text fields, the pass over a sequence is the flat pass. */
  lemma {:induction false} ConvertTracksFields(tracks: seq<Track>, c: Converter)
    ensures var r := ConvertTracks(tracks, c);
      var f := ConvertFields(Fields(tracks), c);
      Fields(r.0) == f.0 && r.1 == f.1
  {
    if tracks != [] {
      var r := ConvertTracks(tracks, c);
      var (t, err) := ConvertEvents(tracks[0], c);
      ConvertEventsFields(tracks[0], c);
      ConvertFieldsAppend(TrackFields(tracks[0]), Fields(tracks[1..]), c);
      if err.Some? {
        assert r.0[1..] == tracks[1..];
      } else {
        ConvertTracksFields(tracks[1..], c);
        assert r.0[1..] == ConvertTracks(tracks[1..], c).0;
      }
    }
  }

  /**
   * The fail-fast contract of `Iconv`, on the fields in track-then-event order:
   * with k the first field whose conversion fails (or n, the number of fields),
   * the pass returns no error exactly when k == n, returns field k's error
   * otherwise, leaves fields 1..k-1 as post(convert(old)) and fields k..n as
   * they were, and keeps the number of fields.
   */
  lemma IconvFailFast(tracks: seq<Track>, c: Converter)
    ensures var fs := Fields(tracks);
      var k := FirstFailure(fs, c);
      var r := ConvertTracks(tracks, c);
      var fs' := Fields(r.0);
      && |fs'| == |fs|
      && (r.1 == None <==> k == |fs|)
      && (k < |fs| ==> r.1 == Some(c.Convert(fs[k]).error))
      && (forall n :: 0 <= n < k ==> fs'[n] == c.post(c.Convert(fs[n]).value))
      && (forall n :: k <= n < |fs| ==> fs'[n] == fs[n])
  {
    ConvertTracksFields(tracks, c);
    ConvertFieldsFailFast(Fields(tracks), c);
  }

  /**
   * With the default (identity) post-process, every field converted before the
   * first failure holds exactly the converter's output.
   */
  lemma DefaultProcessKeepsRawConversion(
    tracks: seq<Track>, convert: (string, string, string) -> Result<string, Error>,
    from: string, to: string)
    ensures var c := Converter(convert, from, to, DefaultStringProcess);
      var fs := Fields(tracks);
      var fs' := Fields(ConvertTracks(tracks, c).0);
      |fs'| == |fs| &&
      forall n :: 0 <= n < FirstFailure(fs, c) ==> fs'[n] == convert(fs[n], from, to).value
  {
    IconvFailFast(tracks, Converter(convert, from, to, DefaultStringProcess));
  }

  // ---------------------------------------------------------------------------
  // Iconv: the in-place conversion
  // ---------------------------------------------------------------------------

  /**
   * Converts every text field of `s` in place, track by track and event by event,
   * to `spf(convert(text, from, to))`; returns the first conversion error at once,
   * leaving the fields already converted as they are.
   */
  method Iconv(
    s: Sequence, convert: (string, string, string) -> Result<string, Error>,
    from: string, to: string, spf: string -> string)
    returns (err: Option<Error>)
    modifies s
    ensures (s.tracks, err) == ConvertTracks(old(s.tracks), Converter(convert, from, to, spf))
  {
    ghost var c := Converter(convert, from, to, spf);
    ghost var orig := s.tracks;
    var i := 0;
    while i < |s.tracks|
      invariant |s.tracks| == |orig| && 0 <= i <= |orig|
      invariant s.tracks[i..] == orig[i..]
      invariant ConvertTracks(orig[..i], c) == (s.tracks[..i], None)
    {
      TrackStart(orig, s.tracks, i, c);
      var j := 0;
      while j < |s.tracks[i]|
        invariant ConvertedUpTo(orig, s.tracks, i, j, c)
        invariant |s.tracks| == |orig| && |s.tracks[i]| == |orig[i]|
      {
        var e := s.tracks[i][j];
        assert e == orig[i][j] by { assert s.tracks[i][j..][0] == e; }
        if e.Meta? && e.text.Some? {
          var converted := convert(e.text.value, from, to);
          if converted.Err? {
            FailureStopsPass(orig, s.tracks, i, j, c);
            return Some(converted.error);
          }
          EventStep(orig, s.tracks, i, j, c);
          s.tracks := s.tracks[i := s.tracks[i][j := e.(text := Some(spf(converted.value)))]];
        } else {
          assert ConvertEvent(e, c) == Ok(e);
          EventStep(orig, s.tracks, i, j, c);
          assert s.tracks[i][j := e] == s.tracks[i];
          assert s.tracks[i := s.tracks[i]] == s.tracks;
        }
        j := j + 1;
      }
      TrackDone(orig, s.tracks, i, c);
      i := i + 1;
    }
    assert orig[..i] == orig && s.tracks[..i] == s.tracks;
    err := None;
  }

  /**
   * The state of `Iconv` inside track i before event j: the tracks before i are
   * converted without error, the events of track i before j too, and everything
   * from event j of track i on is as it was.
   */
  ghost predicate ConvertedUpTo(orig: seq<Track>, cur: seq<Track>, i: nat, j: nat, c: Converter)
  {
    && |cur| == |orig| && i < |orig| && |cur[i]| == |orig[i]| && j <= |orig[i]|
    && ConvertTracks(orig[..i], c) == (cur[..i], None)
    && cur[i + 1..] == orig[i + 1..]
    && cur[i][j..] == orig[i][j..]
    && ConvertEvents(orig[i][..j], c) == (cur[i][..j], None)
  }

  /** Entering track i. */
  lemma TrackStart(orig: seq<Track>, cur: seq<Track>, i: nat, c: Converter)
    requires |cur| == |orig| && i < |orig|
    requires cur[i..] == orig[i..]
    requires ConvertTracks(orig[..i], c) == (cur[..i], None)
    ensures ConvertedUpTo(orig, cur, i, 0, c)
  {
    assert cur[i] == cur[i..][0] && orig[i] == orig[i..][0];
    assert cur[i + 1..] == cur[i..][1..];
    assert orig[i][..0] == [] && cur[i][..0] == [];
  }

  /** Event j of track i converted without error: the state moves on to event j + 1. */
  lemma EventStep(orig: seq<Track>, cur: seq<Track>, i: nat, j: nat, c: Converter)
    requires ConvertedUpTo(orig, cur, i, j, c) && j < |orig[i]|
    requires ConvertEvent(orig[i][j], c).Ok?
    ensures ConvertedUpTo(orig, cur[i := cur[i][j := ConvertEvent(orig[i][j], c).value]], i, j + 1, c)
  {
    var e := orig[i][j];
    var e' := ConvertEvent(e, c).value;
    var cur' := cur[i := cur[i][j := e']];
    assert orig[i][..j + 1] == orig[i][..j] + [e];
    ConvertEventsSnoc(orig[i][..j], e, c);
    assert cur'[i][..j + 1] == cur[i][..j] + [e'];
    assert cur'[i][j + 1..] == cur[i][j..][1..] == orig[i][j + 1..];
    assert cur'[..i] == cur[..i] && cur'[i + 1..] == cur[i + 1..];
  }

  /** The last event of track i visited: the tracks up to i are converted without error. */
  lemma TrackDone(orig: seq<Track>, cur: seq<Track>, i: nat, c: Converter)
    requires i < |orig| && ConvertedUpTo(orig, cur, i, |orig[i]|, c)
    ensures ConvertTracks(orig[..i + 1], c) == (cur[..i + 1], None)
    ensures cur[i + 1..] == orig[i + 1..]
  {
    assert orig[i][..|orig[i]|] == orig[i] && cur[i][..|orig[i]|] == cur[i];
    ConvertTracksSnoc(orig[..i], orig[i], c);
    assert orig[..i + 1] == orig[..i] + [orig[i]];
    assert cur[..i + 1] == cur[..i] + [cur[i]];
  }

  /**
   * Event j of track i fails to convert: the current tracks, with the error, are
   * the result of the whole pass, which is why `Iconv` may return at once.
   */
  lemma FailureStopsPass(orig: seq<Track>, cur: seq<Track>, i: nat, j: nat, c: Converter)
    requires ConvertedUpTo(orig, cur, i, j, c) && j < |orig[i]|
    requires ConvertEvent(orig[i][j], c).Err?
    ensures ConvertTracks(orig, c) == (cur, Some(ConvertEvent(orig[i][j], c).error))
  {
    FailureStopsTrack(orig[i], j, cur[i], c);
    FailureStopsSequence(orig, i, cur, c);
  }

  /** One more event visited after an error-free prefix of a track. */
  lemma ConvertEventsSnoc(a: seq<Event>, e: Event, c: Converter)
    requires ConvertEvents(a, c).1 == None
    ensures ConvertEvent(e, c).Ok? ==>
      ConvertEvents(a + [e], c) == (ConvertEvents(a, c).0 + [ConvertEvent(e, c).value], None)
  {
    ConvertEventsAppend(a, [e], c);
    if ConvertEvent(e, c).Ok? {
      assert [e][0] == e && [e][1..] == [];
      assert ConvertEvents([], c) == ([], None);
      assert [ConvertEvent(e, c).value] + [] == [ConvertEvent(e, c).value];
      assert ConvertEvents([e], c) == ([ConvertEvent(e, c).value], None);
    }
  }

  /** One more track visited after an error-free prefix of the sequence. */
  lemma ConvertTracksSnoc(a: seq<Track>, t: Track, c: Converter)
    requires ConvertTracks(a, c).1 == None
    ensures ConvertEvents(t, c).1 == None ==>
      ConvertTracks(a + [t], c) == (ConvertTracks(a, c).0 + [ConvertEvents(t, c).0], None)
  {
    ConvertTracksAppend(a, [t], c);
    if ConvertEvents(t, c).1 == None {
      assert [t][0] == t && [t][1..] == [];
      assert ConvertTracks([], c) == ([], None);
      assert [ConvertEvents(t, c).0] + [] == [ConvertEvents(t, c).0];
      assert ConvertTracks([t], c) == ([ConvertEvents(t, c).0], None);
    }
  }

  /**
   * A track whose events before j converted without error, whose events from j
   * on are untouched, and whose event j fails: the pass over the track stops there.
   */
  lemma FailureStopsTrack(events: seq<Event>, j: nat, cur: seq<Event>, c: Converter)
    requires j < |events| == |cur|
    requires ConvertEvents(events[..j], c) == (cur[..j], None)
    requires cur[j..] == events[j..]
    requires ConvertEvent(events[j], c).Err?
    ensures ConvertEvents(events, c) == (cur, Some(ConvertEvent(events[j], c).error))
  {
    ConvertEventsAppend(events[..j], events[j..], c);
    assert events[..j] + events[j..] == events;
    assert events[j..][0] == events[j];
    assert cur[..j] + cur[j..] == cur;
  }

  /**
   * A sequence whose tracks before i converted without error, whose tracks after
   * i are untouched, and whose track i stops with an error: the pass stops there.
   */
  lemma FailureStopsSequence(orig: seq<Track>, i: nat, cur: seq<Track>, c: Converter)
    requires i < |orig| == |cur|
    requires ConvertTracks(orig[..i], c) == (cur[..i], None)
    requires ConvertEvents(orig[i], c).0 == cur[i] && ConvertEvents(orig[i], c).1.Some?
    requires cur[i + 1..] == orig[i + 1..]
    ensures ConvertTracks(orig, c) == (cur, ConvertEvents(orig[i], c).1)
  {
    ConvertTracksAppend(orig[..i], orig[i..], c);
    assert orig[..i] + orig[i..] == orig;
    assert orig[i..][0] == orig[i] && orig[i..][1..] == orig[i + 1..];
    assert cur[..i] + ([cur[i]] + cur[i + 1..]) == cur;
  }

  // ---------------------------------------------------------------------------
  // Detect: the read-only traversal
  // ---------------------------------------------------------------------------

  /** One guess of the foreign detector (chardet.Result). */
  datatype Guess = Guess(confidence: int, charset: string, language: string)

  /** What `Detect` records for one text field: the guesses, the text, the detector error. */
  datatype Charset = Charset(results: seq<Guess>, text: string, err: Option<Error>)

  /** `records` holds, in order, one record per field of `fields`, as `detectAll` judges it. */
  ghost predicate RecordsFor(
    records: seq<Charset>, fields: seq<string>, detectAll: string -> (seq<Guess>, Option<Error>))
  {
    && |records| == |fields|
    && forall n :: 0 <= n < |records| ==>
         records[n].text == fields[n] && (records[n].results, records[n].err) == detectAll(fields[n])
  }

  /**
   * Runs the detector on every text field of `s`, in track-then-event order,
   * recording the text unchanged with the detector's guesses and error; an error
   * on one field does not stop the traversal. `s` is not modified.
   */
  method Detect(s: Sequence, detectAll: string -> (seq<Guess>, Option<Error>))
    returns (records: seq<Charset>)
    ensures |records| == |Fields(s.tracks)|
    ensures forall n :: 0 <= n < |records| ==>
      && records[n].text == Fields(s.tracks)[n]
      && (records[n].results, records[n].err) == detectAll(Fields(s.tracks)[n])
  {
    records := [];
    var tracks := s.tracks;
    for i := 0 to |tracks|
      invariant RecordsFor(records, Fields(tracks[..i]), detectAll)
    {
      var events := tracks[i];
      assert Fields(tracks[..i]) + TrackFields(events[..0]) == Fields(tracks[..i]);
      for j := 0 to |events|
        invariant RecordsFor(records, Fields(tracks[..i]) + TrackFields(events[..j]), detectAll)
      {
        var event := events[j];
        ghost var visited := Fields(tracks[..i]) + TrackFields(events[..j]);
        TrackFieldsSnoc(events, j);
        if event.Meta? && event.text.Some? {
          var (r, err) := detectAll(event.text.value);
          RecordsForSnoc(records, visited, event.text.value, detectAll);
          records := records + [Charset(r, event.text.value, err)];
          assert visited + [event.text.value] == Fields(tracks[..i]) + TrackFields(events[..j + 1]);
        }
      }
      assert events[..|events|] == events;
      FieldsAppend(tracks[..i], [events]);
      assert tracks[..i + 1] == tracks[..i] + [events];
    }
    assert tracks[..|tracks|] == tracks;
  }

  /** One more field visited: one more record, for that field. */
  lemma RecordsForSnoc(
    records: seq<Charset>, fields: seq<string>, text: string,
    detectAll: string -> (seq<Guess>, Option<Error>))
    requires RecordsFor(records, fields, detectAll)
    ensures RecordsFor(records + [Charset(detectAll(text).0, text, detectAll(text).1)], fields + [text], detectAll)
  {
  }

}
