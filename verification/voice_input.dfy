/**
  The voice-note composer's state and its handlers: submit and close, the
  recording toggle and its one-minute timer, the speech-transcript fold, the
  image picker and the recorder's chunk collection. Effects that talk to the
  browser (MediaRecorder, SpeechRecognition, timers, object URLs) are outside
  the model; each handler is the pure state update it performs.
 */
module VoiceInput {
  import opened Wrappers
  import opened Text

  /** The recording limit in seconds. */
  const RecordingLimit: int := 60

  const LimitMessage := "Recording limit reached (1 minute). Please save or discard."

  /** A recorded audio chunk, known by its size and an identity. */
  datatype Blob = Blob(id: nat, size: nat)

  /** Every piece of component state the handlers touch. */
  datatype Composer = Composer(
    selectedImage: Option<string>,
    dialogOpen: bool,
    title: string,
    note: string,
    recording: bool,
    recordingTime: int,
    titleError: bool,
    audioChunks: seq<Blob>,
    audioUrl: Option<string>,
    error: Option<string>)

  /** The initial state of the component. */
  const Initial := Composer(None, false, "", "", false, 0, false, [], None, None)

  /** The note assembled on submit; `audio` stands for the webm blob built from the chunks.
      The ISO timestamp is left out. */
  datatype NoteData = NoteData(title: string, content: string, image: Option<string>, audio: Option<seq<Blob>>)

  /** The note a submit or close would assemble from the current state. */
  function Assemble(c: Composer): (d: NoteData)
    ensures d.title == Trim(c.title) && d.content == c.note && d.image == c.selectedImage
    ensures d.audio.None? <==> c.audioChunks == []
    ensures d.audio.Some? ==> d.audio.value == c.audioChunks
  {
    NoteData(Trim(c.title), c.note, c.selectedImage,
             if |c.audioChunks| > 0 then Some(c.audioChunks) else None)
  }

  /** The effect on `isRecording`: a recording that stops has its interval cleared and its
      time set back to 0. (The interval handle is set by the first start and never cleared
      to null, so it is present whenever a recording was running.) */
  function RecordingEffect(before: Composer, after: Composer): Composer {
    if before.recording && !after.recording then after.(recordingTime := 0) else after
  }

  /** The reset shared by submit and close: the form is emptied, the dialog closed and
      recording stopped, which zeroes the timer of a running recording; the title error and
      error message are left as they are. */
  predicate IsReset(before: Composer, after: Composer) {
    && after.title == "" && after.note == "" && after.selectedImage.None?
    && after.audioChunks == [] && after.audioUrl.None?
    && !after.dialogOpen && !after.recording
    && after.titleError == before.titleError
    && after.recordingTime == (if before.recording then 0 else before.recordingTime)
    && after.error == before.error
  }

  /** The state after a submit, and the note `handleSubmit` logs to the console, if any. */
  datatype Submitted = Submitted(state: Composer, logged: Option<NoteData>)

  /** `handleSubmit`. */
  function HandleSubmit(c: Composer): (r: Submitted)
    // a title that trims to nothing only raises the title error
    ensures AllSpace(c.title) ==> r.logged.None? && r.state == c.(titleError := true)
    // otherwise the note is built with the trimmed title and the form is reset
    ensures !AllSpace(c.title) ==>
      && r.logged == Some(Assemble(c))
      && r.logged.value.title != ""
      && IsReset(c, r.state)
  {
    if Trim(c.title) == [] then
      Submitted(c.(titleError := true), None)
    else
      Submitted(RecordingEffect(c, c.(title := "", note := "", selectedImage := None, audioChunks := [],
                                       audioUrl := None, dialogOpen := false, recording := false)),
                Some(Assemble(c)))
  }

  /** `handleClose`: the same reset as a submit, whatever the title. */
  function HandleClose(c: Composer): (r: Composer)
    ensures IsReset(c, r)
  {
    RecordingEffect(c, c.(title := "", note := "", selectedImage := None, audioChunks := [],
                          audioUrl := None, dialogOpen := false, recording := false))
  }

  /** A submit that goes through leaves the component exactly as closing it would. */
  lemma SubmitThenMatchesClose(c: Composer)
    requires !AllSpace(c.title)
    ensures HandleSubmit(c).state == HandleClose(c)
  {
  }

  /** `toggleRecording`: starting is refused once the limit is reached; stopping zeroes the
      timer through the effect on `isRecording`. */
  function ToggleRecording(c: Composer): (r: Composer)
    ensures !c.recording && c.recordingTime >= RecordingLimit ==>
      r == c.(error := Some(LimitMessage))
    ensures !c.recording && c.recordingTime < RecordingLimit ==>
      r == c.(dialogOpen := true, recording := true)
    ensures c.recording ==> r == c.(dialogOpen := true, recording := false, recordingTime := 0)
  {
    if !c.recording && c.recordingTime >= RecordingLimit then
      c.(error := Some(LimitMessage))
    else
      RecordingEffect(c, c.(dialogOpen := true, recording := !c.recording))
  }

  /** Stopping always succeeds, and a stop right after a start restores the recording flag
      with the timer at 0. */
  lemma StartThenStop(c: Composer)
    requires !c.recording && c.recordingTime < RecordingLimit
    ensures ToggleRecording(c).recording
    ensures ToggleRecording(ToggleRecording(c)) == c.(dialogOpen := true, recordingTime := 0)
  {
  }

  /** One second of the interval of a running recording: the time counts up, and at the
      limit the interval's `toggleRecording` (captured while recording) stops the recording,
      which the effect answers by zeroing the time. Without a recording there is no interval. */
  function TimerTick(c: Composer): (r: Composer)
    ensures !c.recording ==> r == c
    ensures c.recording && c.recordingTime < RecordingLimit ==>
      r == c.(recordingTime := c.recordingTime + 1)
    ensures c.recording && c.recordingTime >= RecordingLimit ==>
      r == c.(dialogOpen := true, recording := false, recordingTime := 0)
  {
    if !c.recording then c
    else
      var t := Tick(c.recordingTime);
      if t.toggles then RecordingEffect(c, c.(dialogOpen := true, recording := false, recordingTime := t.time))
      else c.(recordingTime := t.time)
  }

  /** The timer invariant: it stays within [0, 60], and it is 0 whenever nothing is being
      recorded. */
  predicate TimerSettled(c: Composer) {
    0 <= c.recordingTime <= RecordingLimit && (!c.recording ==> c.recordingTime == 0)
  }

  /** The component starts settled, and every handler that touches the timer keeps it so. */
  lemma HandlersKeepTimerSettled(c: Composer)
    requires TimerSettled(c)
    ensures TimerSettled(Initial)
    ensures TimerSettled(ToggleRecording(c)) && TimerSettled(TimerTick(c))
    ensures TimerSettled(HandleClose(c)) && TimerSettled(HandleSubmit(c).state)
  {
  }

  /** Consequently the "Recording limit reached" refusal never happens: in a settled state
      the start branch is always taken. */
  lemma LimitRefusalUnreachable(c: Composer)
    requires TimerSettled(c) && !c.recording
    ensures ToggleRecording(c).recording && ToggleRecording(c).error == c.error
  {
  }

  /** One timer tick: the next recording time and whether the recording is toggled. */
  datatype TickResult = TickResult(time: int, toggles: bool)

  function Tick(time: int): (r: TickResult)
    ensures time < RecordingLimit ==> r.time == time + 1 && !r.toggles
    ensures time >= RecordingLimit ==> r.time == 0 && r.toggles
  {
    if time >= RecordingLimit then TickResult(0, true) else TickResult(time + 1, false)
  }

  /** The recording time after `n` ticks. */
  function Ticks(time: int, n: nat): int
    decreases n
  {
    if n == 0 then time else Ticks(Tick(time).time, n - 1)
  }

  /** The timer keeps the recording time within [0, 60]. */
  lemma {:induction false} TicksStayInRange(time: int, n: nat)
    requires 0 <= time <= RecordingLimit
    ensures 0 <= Ticks(time, n) <= RecordingLimit
    decreases n
  {
    if n > 0 {
      TicksStayInRange(Tick(time).time, n - 1);
    }
  }

  /** From zero the timer counts up one per tick until it reaches the limit, and the
      tick after that wraps to zero and stops the recording. */
  lemma {:induction false} TicksCountUp(time: int, n: nat)
    requires 0 <= time && time + n <= RecordingLimit
    ensures Ticks(time, n) == time + n
    decreases n
  {
    if n > 0 {
      TicksCountUp(time + 1, n - 1);
    }
  }

  lemma LimitWraps()
    ensures Ticks(0, RecordingLimit + 1) == 0
    ensures Tick(Ticks(0, RecordingLimit)).toggles
  {
    TicksCountUp(0, RecordingLimit);
    TicksAdd(0, RecordingLimit, 1);
  }

  /** Ticking `m` times and then `n` times is ticking `m + n` times. */
  lemma {:induction false} TicksAdd(time: int, m: nat, n: nat)
    ensures Ticks(time, m + n) == Ticks(Ticks(time, m), n)
    decreases m
  {
    if m > 0 {
      TicksAdd(Tick(time).time, m - 1, n);
    }
  }

  /** One speech-recognition result: its best transcript and whether it is final. */
  datatype SpeechResult = SpeechResult(transcript: string, isFinal: bool)

  /** The final transcripts of `results`, concatenated in order. */
  function Finals(results: seq<SpeechResult>): string {
    if results == [] then ""
    else Finals(results[..|results| - 1])
         + (if results[|results| - 1].isFinal then results[|results| - 1].transcript else "")
  }

  /** Finals of a concatenation is the concatenation of the finals. */
  lemma {:induction false} FinalsAppend(a: seq<SpeechResult>, b: seq<SpeechResult>)
    ensures Finals(a + b) == Finals(a) + Finals(b)
    decreases |b|
  {
    if b == [] {
      assert a + b == a;
    } else {
      var b' := b[..|b| - 1];
      assert (a + b)[..|a + b| - 1] == a + b';
      FinalsAppend(a, b');
    }
  }

  /** Interim results contribute nothing; the finals are empty exactly when every final
      result's transcript is. */
  lemma {:induction false} FinalsEmpty(results: seq<SpeechResult>)
    ensures Finals(results) == "" <==>
      forall i :: 0 <= i < |results| && results[i].isFinal ==> results[i].transcript == ""
  {
    if results != [] {
      FinalsEmpty(results[..|results| - 1]);
      var last := results[|results| - 1];
      if Finals(results) == "" {
        forall i | 0 <= i < |results| && results[i].isFinal
          ensures results[i].transcript == ""
        {
          if i < |results| - 1 {
            assert results[..|results| - 1][i] == results[i];
          }
        }
      }
    }
  }

  /** The `onresult` loop: concatenates the final transcripts from `resultIndex` on. */
  method FinalTranscript(results: seq<SpeechResult>, resultIndex: nat) returns (finalTranscript: string)
    ensures resultIndex >= |results| ==> finalTranscript == ""
    ensures resultIndex < |results| ==> finalTranscript == Finals(results[resultIndex..])
  {
    finalTranscript := "";
    var i := resultIndex;
    while i < |results|
      invariant resultIndex <= i || |results| < resultIndex
      invariant resultIndex < |results| ==> i <= |results| && finalTranscript == Finals(results[resultIndex..i])
      invariant resultIndex >= |results| ==> finalTranscript == ""
      decreases |results| - i
    {
      assert results[resultIndex..i + 1][..i - resultIndex] == results[resultIndex..i];
      if results[i].isFinal {
        finalTranscript := finalTranscript + results[i].transcript;
      }
      i := i + 1;
    }
    assert resultIndex < |results| ==> results[resultIndex..i] == results[resultIndex..];
  }

  /** The note update of `onresult`: a space and the final text are appended only when
      there is final text. */
  function AppendTranscript(note: string, finalTranscript: string): (r: string)
    ensures finalTranscript == "" ==> r == note
    ensures finalTranscript != "" ==>
      && |r| == |note| + 1 + |finalTranscript|
      && r[..|note|] == note
      && r[|note|] == ' '
      && r[|note| + 1..] == finalTranscript
  {
    if finalTranscript != "" then note + " " + finalTranscript else note
  }

  /** `onresult` as a whole. */
  method OnResult(note: string, results: seq<SpeechResult>, resultIndex: nat) returns (r: string)
    ensures resultIndex < |results| && Finals(results[resultIndex..]) != "" ==>
      r == note + " " + Finals(results[resultIndex..])
    ensures resultIndex >= |results| || Finals(results[resultIndex..]) == "" ==> r == note
  {
    var t := FinalTranscript(results, resultIndex);
    r := AppendTranscript(note, t);
  }

  /** A picked file: its MIME type and the object URL made for it. */
  datatype PickedFile = PickedFile(mimeType: string, objectUrl: string)

  /** `handleImageChange`: only an image type replaces the selection. */
  function HandleImageChange(c: Composer, file: Option<PickedFile>): (r: Composer)
    ensures file.Some? && StartsWith(file.value.mimeType, "image/") ==>
      r == c.(selectedImage := Some(file.value.objectUrl))
    ensures !(file.Some? && StartsWith(file.value.mimeType, "image/")) ==> r == c
  {
    if file.Some? && StartsWith(file.value.mimeType, "image/") then
      c.(selectedImage := Some(file.value.objectUrl))
    else
      c
  }

  /** `removeImage`. */
  function RemoveImage(c: Composer): (r: Composer)
    ensures r.selectedImage.None? && r == c.(selectedImage := None)
  {
    c.(selectedImage := None)
  }

  /** A pick that is not an image keeps the earlier selection, and removing right after any
      pick clears the selection and nothing else. */
  lemma PickThenRemove(c: Composer, file: Option<PickedFile>)
    ensures file.Some? && !StartsWith(file.value.mimeType, "image/") ==>
      HandleImageChange(c, file).selectedImage == c.selectedImage
    ensures RemoveImage(HandleImageChange(c, file)) == c.(selectedImage := None)
  {
  }

  /** `ondataavailable`: empty chunks are dropped. */
  function OnDataAvailable(chunks: seq<Blob>, data: Blob): (r: seq<Blob>)
    ensures data.size > 0 ==> r == chunks + [data]
    ensures data.size == 0 ==> r == chunks
  {
    if data.size > 0 then chunks + [data] else chunks
  }

  predicate NonEmptyChunks(chunks: seq<Blob>) {
    forall i :: 0 <= i < |chunks| ==> chunks[i].size > 0
  }

  /** The recorder never stores an empty chunk. */
  lemma OnDataAvailableKeepsChunksNonEmpty(chunks: seq<Blob>, data: Blob)
    requires NonEmptyChunks(chunks)
    ensures NonEmptyChunks(OnDataAvailable(chunks, data))
  {
  }
}
