/**
 * The command-line program: after the flags are parsed and the input file is
 * decoded, it either prints a file-level charset report or converts the text
 * fields and writes the sequence back out.
 */
module Command {
  import opened Wrappers
  import opened Midi
  import opened MidiIconv
  import opened CrLf
  import opened CharsetStats

  /** The flags that reach the core. */
  datatype Options = Options(
    input: string,
    output: string,
    from: string,
    to: string,
    fixCrLf: bool,
    charsetDetect: bool)

  /**
   * The post-process closure handed to `Iconv`. With `-fix-crlf` it is the CRLF
   * fix: its output has a line feed after every carriage return, and dropping
   * those line feeds gives its input back. Otherwise it leaves strings unchanged.
   */
  function PostProcess(fixCrLf: bool): (f: string -> string)
    ensures fixCrLf ==> forall str :: CrThenLf(f(str)) && DropLfAfterCr(f(str)) == str
    ensures !fixCrLf ==> forall str :: f(str) == str
  {
    FixCrLfInvertible();
    if fixCrLf then FixCrLf else DefaultStringProcess
  }

  /** `FixCrLfCrThenLf` and `FixCrLfRoundTrip` for every string at once. */
  lemma FixCrLfInvertible()
    ensures forall str :: CrThenLf(FixCrLf(str)) && DropLfAfterCr(FixCrLf(str)) == str
  {
    forall str ensures CrThenLf(FixCrLf(str)) && DropLfAfterCr(FixCrLf(str)) == str {
      FixCrLfCrThenLf(str);
      FixCrLfRoundTrip(str);
    }
  }

  /** What a run produces: a charset report, or a sequence written to `path`. */
  datatype Outcome =
    | Report(records: seq<Charset>, ranking: seq<Entry>)
    | Saved(path: string, tracks: seq<Track>, logged: Option<Error>)

  /**
   * With the CRLF fix on, every field converted before the first failure is the
   * converter's output with each '\r' turned into "\r\n": every '\r' in it is
   * followed by '\n', and dropping those line feeds gives the raw conversion back.
   */
  lemma FixCrLfConvertedFields(
    tracks: seq<Track>, convert: (string, string, string) -> Result<string, Error>,
    from: string, to: string)
    ensures var c := Converter(convert, from, to, PostProcess(true));
      var fs := Fields(tracks);
      var fs' := Fields(ConvertTracks(tracks, c).0);
      |fs'| == |fs| &&
      forall n :: 0 <= n < FirstFailure(fs, c) ==>
        && CrThenLf(fs'[n])
        && DropLfAfterCr(fs'[n]) == convert(fs[n], from, to).value
  {
    var c := Converter(convert, from, to, PostProcess(true));
    var fs := Fields(tracks);
    IconvFailFast(tracks, c);
    forall n | 0 <= n < FirstFailure(fs, c)
      ensures var v := convert(fs[n], from, to).value; CrThenLf(FixCrLf(v)) && DropLfAfterCr(FixCrLf(v)) == v
    {
      FixCrLfCrThenLf(convert(fs[n], from, to).value);
      FixCrLfRoundTrip(convert(fs[n], from, to).value);
    }
  }

  /**
   * One run of the program on a decoded sequence `s`.
   * In detection mode the sequence is only read: every text field is detected and
   * the results are aggregated into a ranking. Otherwise the text fields are
   * converted in place; a conversion error is only logged, and the sequence, with
   * whatever fields were converted before the error, is written to `-output`, or
   * over the input file when `-output` is empty.
   */
  method Run(
    s: Sequence, opts: Options,
    convert: (string, string, string) -> Result<string, Error>,
    detectAll: string -> (seq<Guess>, Option<Error>))
    returns (outcome: Outcome)
    requires opts.input != ""
    modifies s
    ensures opts.charsetDetect ==>
      && s.tracks == old(s.tracks)
      && outcome.Report?
      && RecordsFor(outcome.records, Fields(s.tracks), detectAll)
      && IsRanking(outcome.ranking, AllResults(outcome.records))
    ensures !opts.charsetDetect ==>
      && outcome.Saved?
      && (s.tracks, outcome.logged) ==
           ConvertTracks(old(s.tracks), Converter(convert, opts.from, opts.to, PostProcess(opts.fixCrLf)))
      && outcome.tracks == s.tracks
      && outcome.path == (if opts.output == "" then opts.input else opts.output)
      && outcome.path != ""
  {
    if opts.charsetDetect {
      var records := Detect(s, detectAll);
      var ranking := RankCharsets(records);
      return Report(records, ranking);
    }
    var err := Iconv(s, convert, opts.from, opts.to, PostProcess(opts.fixCrLf));
    var path := opts.output;
    if path == "" {
      path := opts.input;
    }
    outcome := Saved(path, s.tracks, err);
  }
}
