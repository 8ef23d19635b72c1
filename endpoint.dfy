/** The `/transcribe/` endpoint as a function of its inputs: the upload's
    file name, the two hint strings, and the two remote calls (speech
    recognition, then minutes generation) passed in as functions. File
    handling and logging are not modelled; what is kept is which reply the
    caller gets, and that an unsupported upload never reaches the calls. */
module Endpoint {
  import opened Text
  import opened Upload
  import opened Prompt

  /** What a remote call gives back: a text, or the message of the exception
      it raised. */
  datatype Outcome = Done(value: string) | Raised(message: string)

  /** The endpoint's reply: the transcript and the minutes, or an HTTP error. */
  datatype Reply = Transcribed(rawText: string, minutes: string) | HttpError(status: nat, detail: string)

  /** "Unsupported file format. Supported formats: " */
  const UnsupportedMessage := "サポートされていないファイル形式です。対応形式: "
  /** "An error occurred during processing: " */
  const ProcessingMessage := "処理中にエラーが発生しました: "
  /** "An unexpected error occurred: " */
  const UnexpectedMessage := "予期せぬエラーが発生しました: "

  function Digit(d: nat): char
    requires d < 10
  {
    "0123456789"[d]
  }

  /** Decimal digits of `n`. */
  function Decimal(n: nat): string {
    if n < 10 then [Digit(n)] else Decimal(n / 10) + [Digit(n % 10)]
  }

  /** `str()` of an `HTTPException`: the status code, a colon and the detail. */
  function Describe(status: nat, detail: string): (text: string)
    ensures |text| >= |detail| + 3 && text[|text| - |detail|..] == detail
  {
    var code := Decimal(status);
    assert (code + ": " + detail)[|code| + 2..] == detail;
    code + ": " + detail
  }

  /** The two status codes the endpoint raises print as `400` and `500`. */
  lemma StatusCodes(detail: string)
    ensures Describe(400, detail) == "400: " + detail
    ensures Describe(500, detail) == "500: " + detail
  {
    assert Decimal(400) == "400" by { assert Decimal(40) == "40"; }
    assert Decimal(500) == "500" by { assert Decimal(50) == "50"; }
  }

  /** `setOrder` lists the allowed extensions, each exactly once, as iterating
      the set does. */
  predicate ListsAllowed(setOrder: seq<string>) {
    (forall e :: e in setOrder ==> e in AllowedExtensions)
    && (forall e :: e in AllowedExtensions ==> e in setOrder)
    && (forall i, j :: 0 <= i < j < |setOrder| ==> setOrder[i] != setOrder[j])
  }

  /** `part` occurs in `whole` starting at index `i`. */
  predicate OccursAt(part: string, whole: string, i: int) {
    0 <= i <= |whole| - |part| && whole[i..i + |part|] == part
  }

  /** `part` occurs in `whole` as a contiguous run. */
  predicate Occurs(part: string, whole: string) {
    exists i :: 0 <= i <= |whole| && OccursAt(part, whole, i)
  }

  /** The detail of the rejection: the message and the allowed extensions
      joined by ", " in `setOrder`, the order Python happens to iterate the set. */
  function UnsupportedDetail(setOrder: seq<string>): (detail: string)
    ensures |UnsupportedMessage| <= |detail| && detail[..|UnsupportedMessage|] == UnsupportedMessage
  {
    UnsupportedMessage + Join(setOrder, ", ")
  }

  /** An occurrence survives putting text in front, shifted by its length. */
  lemma OccursAfterPrefix(part: string, whole: string, pre: string, i: int)
    requires OccursAt(part, whole, i)
    ensures OccursAt(part, pre + whole, |pre| + i)
  {
    assert (pre + whole)[|pre| + i..|pre| + i + |part|] == whole[i..i + |part|];
  }

  /** Each part of a join occurs in the joined text. */
  lemma {:induction false} JoinContains(parts: seq<string>, sep: string, k: nat)
    requires k < |parts|
    ensures Occurs(parts[k], Join(parts, sep))
  {
    var whole := Join(parts, sep);
    if k == 0 {
      assert whole[0..|parts[0]|] == parts[0];
      assert OccursAt(parts[0], whole, 0);
    } else {
      JoinContains(parts[1..], sep, k - 1);
      var rest := Join(parts[1..], sep);
      assert parts[1..][k - 1] == parts[k];
      var i :| 0 <= i <= |rest| && OccursAt(parts[k], rest, i);
      assert whole == (parts[0] + sep) + rest;
      OccursAfterPrefix(parts[k], rest, parts[0] + sep, i);
    }
  }

  /** The rejection message names every allowed extension. */
  lemma RejectionNamesEveryExtension(setOrder: seq<string>, e: string)
    requires ListsAllowed(setOrder)
    requires e in AllowedExtensions
    ensures Occurs(e, UnsupportedDetail(setOrder))
  {
    assert e in setOrder;
    var k :| 0 <= k < |setOrder| && setOrder[k] == e;
    JoinContains(setOrder, ", ", k);
    var joined := Join(setOrder, ", ");
    var i :| 0 <= i <= |joined| && OccursAt(e, joined, i);
    OccursAfterPrefix(e, joined, UnsupportedMessage, i);
  }

  /** The outer handler: any exception becomes a 500 whose detail embeds its
      text. */
  function Unexpected(status: nat, detail: string): (r: Reply)
    ensures r.HttpError? && r.status == 500
    ensures |UnexpectedMessage| <= |r.detail| && r.detail[..|UnexpectedMessage|] == UnexpectedMessage
    ensures |detail| <= |r.detail| && r.detail[|r.detail| - |detail|..] == detail
  {
    var text := Describe(status, detail);
    assert (UnexpectedMessage + text)[|UnexpectedMessage + text| - |detail|..] == text[|text| - |detail|..];
    HttpError(500, UnexpectedMessage + text)
  }

  /** `transcribe_audio` as written: the extension check raises a 400 inside
      the outer `try`, a failed remote call raises a 500 inside the inner one,
      and the outer `except Exception` turns either into a 500. */
  function TranscribeAudio(filename: string, meetingSummary: string, keyTerms: string,
                           setOrder: seq<string>,
                           transcribe: string -> Outcome, summarize: string -> Outcome): (r: Reply)
    ensures r.HttpError? ==> r.status == 500
    ensures r.Transcribed? ==> IsSupported(filename)
                               && transcribe(InitialPrompt(meetingSummary, keyTerms)) == Done(r.rawText)
                               && summarize(r.rawText) == Done(r.minutes)
    ensures !IsSupported(filename)
            ==> r.HttpError? && r.detail == UnexpectedMessage + Describe(400, UnsupportedDetail(setOrder))
    ensures IsSupported(filename) && transcribe(InitialPrompt(meetingSummary, keyTerms)).Raised?
            ==> r.HttpError? && r.detail == UnexpectedMessage + Describe(500,
                  ProcessingMessage + transcribe(InitialPrompt(meetingSummary, keyTerms)).message)
    ensures var t := transcribe(InitialPrompt(meetingSummary, keyTerms));
            IsSupported(filename) && t.Done? && summarize(t.value).Raised?
            ==> r.HttpError? && r.detail == UnexpectedMessage + Describe(500, ProcessingMessage + summarize(t.value).message)
  {
    if !IsSupported(filename) then
      Unexpected(400, UnsupportedDetail(setOrder))
    else
      match transcribe(InitialPrompt(meetingSummary, keyTerms))
      case Raised(m) => Unexpected(500, ProcessingMessage + m)
      case Done(rawText) =>
        match summarize(rawText)
        case Raised(m) => Unexpected(500, ProcessingMessage + m)
        case Done(minutes) => Transcribed(rawText, minutes)
  }

  /** A rejected upload never reaches the remote calls: the reply is the same
      whatever they would have done. */
  lemma RejectedBeforeCalls(filename: string, meetingSummary: string, keyTerms: string,
                            setOrder: seq<string>,
                            t1: string -> Outcome, s1: string -> Outcome,
                            t2: string -> Outcome, s2: string -> Outcome)
    requires !IsSupported(filename)
    ensures TranscribeAudio(filename, meetingSummary, keyTerms, setOrder, t1, s1)
         == TranscribeAudio(filename, meetingSummary, keyTerms, setOrder, t2, s2)
  {
  }

  /** A successful reply exists exactly when the upload is supported and both
      remote calls succeed; it carries what they returned. */
  lemma TranscribedIff(filename: string, meetingSummary: string, keyTerms: string,
                       setOrder: seq<string>, transcribe: string -> Outcome, summarize: string -> Outcome)
    ensures var prompt := InitialPrompt(meetingSummary, keyTerms);
            TranscribeAudio(filename, meetingSummary, keyTerms, setOrder, transcribe, summarize).Transcribed?
            <==> IsSupported(filename) && transcribe(prompt).Done? && summarize(transcribe(prompt).value).Done?
  {
  }

  /** `transcribe_audio` as its `status_code=400` evidently intends: an
      `HTTPException` raised in the body reaches the client unchanged, and
      only other exceptions become 500s. */
  function TranscribeAudioIntended(filename: string, meetingSummary: string, keyTerms: string,
                                   setOrder: seq<string>,
                                   transcribe: string -> Outcome, summarize: string -> Outcome): (r: Reply)
    ensures r.HttpError? ==> (r.status == 400 <==> !IsSupported(filename))
    ensures !IsSupported(filename) ==> r == HttpError(400, UnsupportedDetail(setOrder))
    ensures IsSupported(filename) && transcribe(InitialPrompt(meetingSummary, keyTerms)).Raised?
            ==> r == HttpError(500, ProcessingMessage + transcribe(InitialPrompt(meetingSummary, keyTerms)).message)
    ensures var t := transcribe(InitialPrompt(meetingSummary, keyTerms));
            IsSupported(filename) && t.Done? && summarize(t.value).Raised?
            ==> r == HttpError(500, ProcessingMessage + summarize(t.value).message)
  {
    if !IsSupported(filename) then
      HttpError(400, UnsupportedDetail(setOrder))
    else
      match transcribe(InitialPrompt(meetingSummary, keyTerms))
      case Raised(m) => HttpError(500, ProcessingMessage + m)
      case Done(rawText) =>
        match summarize(rawText)
        case Raised(m) => HttpError(500, ProcessingMessage + m)
        case Done(minutes) => Transcribed(rawText, minutes)
  }

  /** The two versions differ on every rejected upload: as written the client
      sees a 500, not the 400. */
  lemma RejectionStatus(filename: string, meetingSummary: string, keyTerms: string,
                        setOrder: seq<string>, transcribe: string -> Outcome, summarize: string -> Outcome)
    requires !IsSupported(filename)
    ensures TranscribeAudio(filename, meetingSummary, keyTerms, setOrder, transcribe, summarize).status == 500
    ensures TranscribeAudioIntended(filename, meetingSummary, keyTerms, setOrder, transcribe, summarize).status == 400
  {
  }

  /** The correction changes only error replies: both versions succeed on the
      same inputs, with the same transcript and minutes. */
  lemma SuccessUnchanged(filename: string, meetingSummary: string, keyTerms: string,
                         setOrder: seq<string>, transcribe: string -> Outcome, summarize: string -> Outcome)
    ensures var written := TranscribeAudio(filename, meetingSummary, keyTerms, setOrder, transcribe, summarize);
            var intended := TranscribeAudioIntended(filename, meetingSummary, keyTerms, setOrder, transcribe, summarize);
            (written.Transcribed? <==> intended.Transcribed?) && (written.Transcribed? ==> written == intended)
  {
  }

  /** `splitext` finds `.txt` in `notes.txt`. */
  lemma TextFileExtension()
    ensures Extension("notes.txt") == ".txt"
  {
    var p := "notes.txt";
    assert LastIndexOf(p, '/') == -1 by { assert '/' !in p; }
    assert LastIndexOf(p, '.') == 5 by { assert p[5] == '.' && p[6] != '.' && p[7] != '.' && p[8] != '.'; }
    assert NonDotBetween(p, 0, 5) by { assert p[0] != '.'; }
    assert p[5..] == ".txt";
  }

  /** A concrete unsupported upload: `notes.txt`. */
  lemma TextFileRejected()
    ensures !IsSupported("notes.txt")
  {
    TextFileExtension();
    // every allowed extension has an `m` or a `w` after its dot
    assert LowerAscii(".txt")[1] == 't';
  }
}
