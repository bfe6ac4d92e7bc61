/**
 The decision logic of the `tts` command: where the text comes from, where
 the audio goes, which voice is used and which gender is sent to the
 service. Reading the file, the two service calls and writing the audio are
 outside the model: the file's contents, the catalog, the stopword corpus and
 the answer to the menu prompt arrive as parameters, and the result is the
 synthesis request the command would send.
 */
module Cli {
  import opened Outcomes
  import opened Voices
  import Catalog
  import Selection
  import Filename

  /** The command-line options that steer the decisions. `file` holds the
      contents of the `--file` argument when one was given. */
  datatype Options = Options(
    text: Option<string>,
    file: Option<string>,
    output: Option<string>,
    lang: string,
    gender: Gender,
    voiceType: string)

  /** What the command hands to the speech service, and where the audio goes. */
  datatype Request = Request(
    text: string,
    voiceName: string,
    languageCode: string,
    gender: SsmlGender,
    output: string)

  /** `--text` wins over `--file`; having neither is a usage error. */
  function ResolveText(text: Option<string>, file: Option<string>): (r: Result<string>)
    ensures r.Err? <==> text.None? && file.None?
    ensures r.Err? ==> r.failure == MissingInput
    ensures text.Some? ==> r == Ok(text.value)
    ensures r.Ok? && text.None? ==> file == Some(r.value)
  {
    if text.None? && file.Some? then Ok(file.value)
    else if text.None? then Err(MissingInput)
    else Ok(text.value)
  }

  /** The explicit `--output`, or the name synthesised from the text. */
  function ResolveOutput(output: Option<string>, text: string, lang: string, corpus: Filename.Corpus): (path: string)
    ensures output.Some? ==> path == output.value
    ensures output.None? ==> path == Filename.GenerateFilename(text, lang, corpus)
  {
    match output
    case Some(p) => p
    case None => Filename.GenerateFilename(text, lang, corpus)
  }

  /** The `tts` command up to the synthesis call. */
  function Plan(opts: Options, catalog: seq<Voice>, corpus: Filename.Corpus, choice: int): (r: Result<Request>)
    ensures r.Ok? ==> r.value.languageCode == opts.lang && r.value.gender == ToSsml(opts.gender)
  {
    var text :- ResolveText(opts.text, opts.file);
    var output := ResolveOutput(opts.output, text, opts.lang, corpus);
    var voices :- Catalog.AvailableVoices(catalog, opts.lang, opts.gender);
    var name :- Selection.SelectVoice(voices, opts.voiceType, choice);
    Ok(Request(text, name, opts.lang, ToSsml(opts.gender), output))
  }

  // ---------------------------------------------------------------------------
  // Properties of a whole invocation
  // ---------------------------------------------------------------------------

  /** Missing input is reported before the catalog is consulted: the outcome
      does not depend on the catalog, the corpus or the prompt. */
  lemma MissingInputFirst(opts: Options, catalog: seq<Voice>, corpus: Filename.Corpus, choice: int)
    requires opts.text.None? && opts.file.None?
    ensures Plan(opts, catalog, corpus, choice) == Err(MissingInput)
  {
  }

  /** The selected voice is drawn from the catalog filtered by language prefix
      and gender, and the empty-list `IndexError` can never surface. */
  lemma PlanSelectsEligibleVoice(opts: Options, catalog: seq<Voice>, corpus: Filename.Corpus, choice: int)
    ensures var r := Plan(opts, catalog, corpus, choice);
            && (r.Ok? ==> exists i :: 0 <= i < |catalog| && catalog[i].name == r.value.voiceName
                                     && Catalog.Eligible(catalog[i], opts.lang, opts.gender))
            && (r.Err? ==> r.failure != IndexError)
  {
  }

  /** The only ways an invocation can fail, each a usage error. */
  lemma PlanFailures(opts: Options, catalog: seq<Voice>, corpus: Filename.Corpus, choice: int)
    ensures var r := Plan(opts, catalog, corpus, choice);
            r.Err? ==> r.failure in {MissingInput, NoVoicesFound(opts.lang, opts.gender), InvalidChoice}
  {
  }

  /** The request carries the resolved text and the resolved output path. */
  lemma PlanUsesResolvedInputs(opts: Options, catalog: seq<Voice>, corpus: Filename.Corpus, choice: int)
    requires Plan(opts, catalog, corpus, choice).Ok?
    ensures var req := Plan(opts, catalog, corpus, choice).value;
            && (opts.text.Some? ==> req.text == opts.text.value)
            && (opts.text.None? ==> opts.file == Some(req.text))
            && (opts.output.Some? ==> req.output == opts.output.value)
            && (opts.output.None? ==> req.output == Filename.GenerateFilename(req.text, opts.lang, corpus))
  {
  }

  /** When no voice of the catalog fits the language and gender, the
      invocation ends with that usage error, whatever the prompt would say. */
  lemma NoEligibleVoice(opts: Options, catalog: seq<Voice>, corpus: Filename.Corpus, choice: int)
    requires opts.text.Some? || opts.file.Some?
    requires forall i :: 0 <= i < |catalog| ==> !Catalog.Eligible(catalog[i], opts.lang, opts.gender)
    ensures Plan(opts, catalog, corpus, choice) == Err(NoVoicesFound(opts.lang, opts.gender))
  {
  }
}
