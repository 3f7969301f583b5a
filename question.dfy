/**
 * Where the question comes from, and whether the Ask button goes on to
 * generate SQL. The text box and the recording are inputs; the transcript
 * is what the speech service returns for the recording, a parameter here.
 */
module Question {
  import opened Text
  import opened Options

  /** What the front end shows while choosing the question. */
  datatype Notice = NoNotice | Info(msg: String) | Success(msg: String)

  /** The chosen question, or `None`, and the notice shown with it. */
  datatype Choice = Choice(question: Option<String>, notice: Notice)

  /** What pressing Ask does: warn, or go on with the question. */
  datatype Ask = Warn(msg: String) | Generate(question: String)

  const UsingTyped: String := "Using typed question."
  const TranscriptPrefix: String := "Transcript: "
  const BothOrNeither: String := "Please type or speak your question (but not both)."
  const NoInput: String := "Please either type a question or upload an audio clip."
  const EnterQuestion: String := "Please enter a question."

  /**
   * The recorder front end (app.py:30-39, app_movie.py:103-113): the typed
   * text alone, the transcript of the recording alone, the typed text with
   * a notice when there are both, and nothing when there are neither.
   * The recording is only transcribed when the text box is empty.
   */
  function ChooseRecorded(text: String, hasAudio: bool, transcript: String): (c: Choice)
    ensures text != [] ==> c.question == Some(text)
    ensures text != [] && !hasAudio ==> c == Choice(Some(text), NoNotice)
    ensures text == [] && hasAudio ==> c == Choice(Some(transcript), Success(TranscriptPrefix + transcript))
    ensures text == [] && !hasAudio ==> c.question == None && c.notice == NoNotice
    ensures c.notice == Info(UsingTyped) <==> text != [] && hasAudio
  {
    if text != [] && !hasAudio then Choice(Some(text), NoNotice)
    else if hasAudio && text == [] then Choice(Some(transcript), Success(TranscriptPrefix + transcript))
    else if text != [] && hasAudio then Choice(Some(text), Info(UsingTyped))
    else Choice(None, NoNotice)
  }

  /** The upload front end (stream.py:40-47): typed text first, else the transcript of an uploaded file. */
  function ChooseUploaded(text: String, hasFile: bool, transcript: String): (c: Choice)
    ensures text != [] ==> c == Choice(Some(text), NoNotice)
    ensures text == [] && hasFile ==> c == Choice(Some(transcript), Success(TranscriptPrefix + transcript))
    ensures text == [] && !hasFile ==> c == Choice(None, NoNotice)
  {
    if text != [] then Choice(Some(text), NoNotice)
    else if hasFile then Choice(Some(transcript), Success(TranscriptPrefix + transcript))
    else Choice(None, NoNotice)
  }

  /** `if not question`: no question, or an empty one, gives the warning; otherwise SQL is generated from it. */
  function OnAsk(question: Option<String>, warning: String): (a: Ask)
    ensures a.Generate? <==> question.Some? && question.value != []
    ensures a.Generate? ==> a.question == question.value
    ensures a.Warn? ==> a.msg == warning
  {
    if question.None? || question.value == [] then Warn(warning) else Generate(question.value)
  }

  /**
   * The Ask button of the recorder front end (app.py:42-44): SQL is generated
   * from the typed text when there is some, else from a non-empty transcript
   * of a recording; otherwise the front end warns.
   */
  function AskRecorded(text: String, hasAudio: bool, transcript: String): (a: Ask)
    ensures a.Generate? <==> text != [] || (hasAudio && transcript != [])
    ensures a.Generate? ==> a.question == if text != [] then text else transcript
    ensures a.Warn? ==> a.msg == BothOrNeither
  {
    OnAsk(ChooseRecorded(text, hasAudio, transcript).question, BothOrNeither)
  }

  /** The Ask button of the upload front end (stream.py:50-52), with the same choice and its own warning. */
  function AskUploaded(text: String, hasFile: bool, transcript: String): (a: Ask)
    ensures a.Generate? <==> text != [] || (hasFile && transcript != [])
    ensures a.Generate? ==> a.question == if text != [] then text else transcript
    ensures a.Warn? ==> a.msg == NoInput
  {
    OnAsk(ChooseUploaded(text, hasFile, transcript).question, NoInput)
  }

  /**
   * The widget front end (app_ip.py:21-26): the text is stripped, and an
   * empty result prints a message and returns before any SQL is generated.
   */
  function AskWidget(value: String): (a: Ask)
    ensures a.Generate? <==> Strip(value) != []
    ensures a.Generate? ==> a.question == Strip(value) && !IsSpace(a.question[0]) && !IsSpace(a.question[|a.question| - 1])
    ensures a.Warn? ==> a.msg == EnterQuestion && forall i :: 0 <= i < |value| ==> IsSpace(value[i])
  {
    var q := Strip(value);
    if q == [] then Warn(EnterQuestion) else Generate(q)
  }

  /**
   * Typed text always wins, in both front ends with a text box and a
   * recording: a non-empty text box is the question that is generated from,
   * whatever the recording, and the transcript is used only when it is empty.
   */
  lemma TypedTextWins(text: String, hasAudio: bool, transcript: String)
    requires text != []
    ensures AskRecorded(text, hasAudio, transcript) == Generate(text)
    ensures AskUploaded(text, hasAudio, transcript) == Generate(text)
  {
  }

  /** With an empty text box the transcript decides: SQL is generated from it exactly when there is one and it is non-empty. */
  lemma TranscriptWhenNoText(hasAudio: bool, transcript: String)
    ensures AskRecorded([], hasAudio, transcript).Generate? <==> hasAudio && transcript != []
    ensures AskUploaded([], hasAudio, transcript).Generate? <==> hasAudio && transcript != []
    ensures hasAudio && transcript != [] ==>
              AskRecorded([], hasAudio, transcript) == AskUploaded([], hasAudio, transcript) == Generate(transcript)
  {
  }

  /** With neither input, Ask warns and generates nothing. */
  lemma NeitherWarns(transcript: String)
    ensures AskRecorded([], false, transcript) == Warn(BothOrNeither)
    ensures AskUploaded([], false, transcript) == Warn(NoInput)
  {
  }

  /** Whitespace around the typed question does not change what the widget front end does. */
  lemma WidgetIgnoresPadding(value: String)
    ensures AskWidget(Strip(value)) == AskWidget(value)
  {
    var q := Strip(value);
    if q != [] {
      StripUnpadded(q);
    }
  }
}
