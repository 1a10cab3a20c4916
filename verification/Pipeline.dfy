/** The upload component's control flow around the pure parts: the size gate
    and its message, the audio extraction decision, the processing status
    sequence, the caption editor's session state and the export file name. */
module Pipeline {
  import opened Text
  import opened Srt
  import opened Timeline
  import opened Wav

  /** What an awaited step produced: a value, or the message of what it threw. */
  datatype Outcome<T> = Ok(value: T) | Failed(message: string)

  /** An uploaded file: its name, size in bytes, MIME type and content. */
  datatype File = File(name: string, size: nat, mimeType: string, data: seq<byte>)

  // ---------------------------------------------------------------------------
  // The size gate

  const MiB: nat := 1024 * 1024
  const MaxFileSize: nat := 50 * MiB

  /** Files strictly larger than 50 MiB are refused; exactly 50 MiB passes. */
  predicate TooLarge(size: nat)
    ensures TooLarge(size) <==> size > 52_428_800
  {
    size > MaxFileSize
  }

  lemma SizeGateBoundary()
    ensures !TooLarge(52_428_800) && TooLarge(52_428_801)
  {
  }

  /** `(size / MiB).toFixed(1)` as a count of tenths: the nearest tenth of a
      mebibyte, halves rounded up. */
  function Tenths(size: nat): (t: nat)
    ensures t * MiB <= 10 * size + MiB / 2 < (t + 1) * MiB
  {
    (10 * size + MiB / 2) / MiB
  }

  /** The nearest tenth is unique: any count within half a tenth of the
      size (ties going up) is `Tenths(size)`. */
  lemma TenthsUnique(size: nat, t: nat)
    requires t * MiB <= 10 * size + MiB / 2 < (t + 1) * MiB
    ensures t == Tenths(size)
  {
    var u := Tenths(size);
    BelowNext(t, u, 10 * size + MiB / 2);
    BelowNext(u, t, 10 * size + MiB / 2);
  }

  /** If `a` mebibytes fit under `x` and `b + 1` do not, then `a <= b`. */
  lemma BelowNext(a: nat, b: nat, x: nat)
    requires a * MiB <= x < (b + 1) * MiB
    ensures a <= b
  {
    assert a * MiB < (b + 1) * MiB;
  }

  /** The `toFixed(1)` text: whole mebibytes, a point, one decimal. */
  function FormatMegabytes(size: nat): (r: string)
    ensures |r| >= 3 && r[|r| - 2] == '.' && '.' !in r[..|r| - 2]
  {
    var t := Tenths(size);
    NatToString(t / 10) + "." + [DigitChar(t % 10)]
  }

  /** The text reads back as the tenths it was written from. */
  lemma FormatMegabytesValue(size: nat)
    ensures var s := FormatMegabytes(size);
      |s| >= 3 && s[|s| - 2] == '.' && AllDigits(s[..|s| - 2], 10) && DigitOf(s[|s| - 1], 10).Some?
      && RadixValue(s[..|s| - 2], 10) * 10 + DigitOf(s[|s| - 1], 10).value == Tenths(size)
  {
    var t := Tenths(size);
    var s := FormatMegabytes(size);
    var w := NatToString(t / 10);
    assert s[..|s| - 2] == w;
  }

  lemma FormatExample()
    ensures FormatMegabytes(60 * MiB) == "60.0"
    ensures FormatMegabytes(52_480_000) == "50.0"
  {
    assert Tenths(60 * MiB) == 600;
    assert NatToString(60) == NatToString(6) + [DigitChar(0)];
    assert Tenths(52_480_000) == 500;
    assert NatToString(50) == NatToString(5) + [DigitChar(0)];
  }

  function TooLargeMessage(size: nat): string {
    "File is too large (" + FormatMegabytes(size) + "MB). Limit is 50MB."
  }

  // ---------------------------------------------------------------------------
  // The export file name: `name.replace(/\.[^/.]+$/, "") + "_CaptionCut.srt"`

  const ExportSuffix: string := "_CaptionCut.srt"

  /** The pattern matches at `p`: a dot followed, up to the end of the name,
      by one or more characters that are neither `.` nor `/`. */
  predicate IsExtSuffix(name: string, p: nat) {
    && p + 1 < |name| && name[p] == '.'
    && forall k :: p < k < |name| ==> name[k] != '.' && name[k] != '/'
  }

  /** At most one position matches: the dot of a match is the last dot. */
  lemma ExtSuffixUnique(name: string, p: nat, q: nat)
    requires IsExtSuffix(name, p) && IsExtSuffix(name, q)
    ensures p == q
  {
  }

  /** Scans backwards from `k` over characters that are neither `.` nor `/`,
      looking for the dot that starts a match. */
  function ExtScan(name: string, k: nat): (r: Option<nat>)
    requires k <= |name|
    requires forall j :: k <= j < |name| ==> name[j] != '.' && name[j] != '/'
    ensures r.Some? ==> IsExtSuffix(name, r.value)
    ensures r.None? ==> forall p: nat :: p < k ==> !IsExtSuffix(name, p)
  {
    if k == 0 then None
    else if name[k - 1] == '.' then
      if k < |name| then Some(k - 1) else None
    else if name[k - 1] == '/' then None
    else ExtScan(name, k - 1)
  }

  /** The position the pattern matches, if it matches at all. */
  function ExtStart(name: string): (r: Option<nat>)
    ensures r.Some? ==> IsExtSuffix(name, r.value)
    ensures r.None? ==> forall p: nat :: !IsExtSuffix(name, p)
  {
    ExtScan(name, |name|)
  }

  /** The download name: the upload name without its extension, if it has
      one, followed by `_CaptionCut.srt`. */
  function ExportName(name: string): (r: string)
    ensures forall p: nat :: IsExtSuffix(name, p) ==> r == name[..p] + ExportSuffix
    ensures (forall p: nat :: !IsExtSuffix(name, p)) ==> r == name + ExportSuffix
  {
    match ExtStart(name)
    case Some(p) =>
      assert forall q: nat :: IsExtSuffix(name, q) ==> q == p by {
        forall q: nat | IsExtSuffix(name, q) ensures q == p {
          ExtSuffixUnique(name, p, q);
        }
      }
      name[..p] + ExportSuffix
    case None => name + ExportSuffix
  }

  /** A stem and a proper extension: the extension is what is removed. */
  lemma ExportNameOfStem(stem: string, ext: string)
    requires ext != [] && '.' !in ext && '/' !in ext
    ensures ExportName(stem + "." + ext) == stem + ExportSuffix
  {
    var name := stem + "." + ext;
    assert forall k :: |stem| < k < |name| ==> name[k] == ext[k - |stem| - 1];
    assert IsExtSuffix(name, |stem|);
    assert name[..|stem|] == stem;
  }

  /** A name without a dot has no extension. */
  lemma ExportNameNoDot(name: string)
    requires '.' !in name
    ensures ExportName(name) == name + ExportSuffix
  {
    forall p: nat ensures !IsExtSuffix(name, p) {
      if p < |name| {
        assert name[p] in name;
      }
    }
  }

  /** A name whose last `/` comes after its last dot has no extension:
      the whole name is kept. */
  lemma ExportNameSlashAfterDot(name: string, j: nat)
    requires j < |name| && name[j] == '/'
    requires forall k :: j < k < |name| ==> name[k] != '.'
    ensures ExportName(name) == name + ExportSuffix
  {
    forall p: nat ensures !IsExtSuffix(name, p) {
      if p < j && p + 1 < |name| && name[p] == '.' {
        assert name[j] == '/';
      }
    }
  }

  /** A name ending in a dot has no extension either. */
  lemma ExportNameTrailingDot(name: string)
    requires name != [] && name[|name| - 1] == '.'
    ensures ExportName(name) == name + ExportSuffix
  {
    forall p: nat ensures !IsExtSuffix(name, p) {
      if p + 1 < |name| {
        assert name[|name| - 1] == '.';
      }
    }
  }

  /** `v1.0/raw`: the dot belongs to a directory, so nothing is removed. */
  lemma ExportNameDottedDirectory()
    ensures ExportName("v1.0/raw") == "v1.0/raw_CaptionCut.srt"
  {
    ExportNameSlashAfterDot("v1.0/raw", 4);
  }

  // ---------------------------------------------------------------------------
  // Audio extraction

  const ExtractError: string := "Unable to extract audio track. Ensure the file is not corrupted."

  /** `extractAudio`, given what decoding the file produced: a decoded buffer
      is re-encoded as WAV; a file that cannot be decoded is passed on
      unchanged if its type is `audio/...` and refused otherwise. */
  method ExtractAudio(file: File, decoded: Option<AudioBuffer>) returns (r: Outcome<Blob>)
    requires decoded.Some? ==> decoded.value.Valid()
    ensures decoded.Some? ==> r == Ok(Blob(WavBytes(decoded.value), "audio/wav"))
    ensures decoded.None? && StartsWith(file.mimeType, "audio/") ==> r == Ok(Blob(file.data, file.mimeType))
    ensures decoded.None? && !StartsWith(file.mimeType, "audio/") ==> r == Failed(ExtractError)
  {
    match decoded
    case Some(buffer) =>
      var wav := AudioBufferToWav(buffer);
      r := Ok(wav);
    case None =>
      if StartsWith(file.mimeType, "audio/") {
        r := Ok(Blob(file.data, file.mimeType));
      } else {
        r := Failed(ExtractError);
      }
  }

  // ---------------------------------------------------------------------------
  // The session

  datatype Status = Idle | Extracting | Transcribing | Completed | Error

  /** The status changes the component can make: an upload (from the idle or
      error screen) starts extracting or is refused by the size gate;
      extraction goes on to transcription or fails; transcription completes
      or fails; a completed result is discarded back to idle. */
  predicate Step(a: Status, b: Status) {
    || ((a == Idle || a == Error) && (b == Extracting || b == Error))
    || (a == Extracting && (b == Transcribing || b == Error))
    || (a == Transcribing && (b == Completed || b == Error))
    || (a == Completed && b == Idle)
  }

  /** Every change between neighbouring entries of `tr` is a Step. */
  ghost predicate Chained(tr: seq<Status>) {
    forall i :: 0 <= i < |tr| - 1 ==> Step(tr[i], tr[i + 1])
  }

  /** A run of statuses starting from the initial one, every change a Step. */
  ghost predicate ValidTrace(tr: seq<Status>) {
    |tr| >= 1 && tr[0] == Idle && Chained(tr)
  }

  /** A result is shown only after extraction and then transcription. */
  lemma CompletedFollowsPipeline(tr: seq<Status>, i: nat)
    requires ValidTrace(tr) && i < |tr| && tr[i] == Completed
    ensures i >= 2 && tr[i - 1] == Transcribing && tr[i - 2] == Extracting
  {
    assert Step(tr[i - 1], tr[i]);
    assert Step(tr[i - 2], tr[i - 1]);
  }

  lemma ValidTraceExtend(tr: seq<Status>, more: seq<Status>)
    requires ValidTrace(tr) && |more| >= 1 && Step(tr[|tr| - 1], more[0]) && Chained(more)
    ensures ValidTrace(tr + more)
  {
    var t := tr + more;
    forall i | 0 <= i < |t| - 1
      ensures Step(t[i], t[i + 1])
    {
      if i + 1 < |tr| {
        assert t[i] == tr[i] && t[i + 1] == tr[i + 1];
      } else if i + 1 == |tr| {
        assert t[i] == tr[i] && t[i + 1] == more[0];
      } else {
        assert t[i] == more[i - |tr|] && t[i + 1] == more[i + 1 - |tr|];
      }
    }
  }

  const InterruptedMessage: string := "Interrupted. Please check your connection and try again."

  /** The message shown for a thrown error: its own, or the default when it
      has none. */
  function ErrorText(message: string): (r: string)
    ensures r != []
    ensures message != [] ==> r == message
    ensures message == [] ==> r == InterruptedMessage
  {
    if message == [] then InterruptedMessage else message
  }

  /** Where one run of `processFile` ends: the status, the message and the
      captions it leaves, and the statuses it passes through. */
  datatype Ending = Ending(status: Status, message: string, captions: seq<Caption>, path: seq<Status>)

  /** The run of `processFile` on a file whose decoding produced `decoded`
      and whose transcription request answered `reply`. It always starts by
      extracting, every change is a Step, and it ends on the result screen
      exactly when the audio was obtained and the transcription came back;
      a failure leaves a message and no captions. */
  function ProcessRun(file: File, decoded: Option<AudioBuffer>, reply: Outcome<string>): (e: Ending)
    ensures |e.path| >= 1 && e.path[0] == Extracting && e.path[|e.path| - 1] == e.status
    ensures Chained(e.path)
    ensures e.status == Completed || e.status == Error
    ensures e.status == Completed <==> (decoded.Some? || StartsWith(file.mimeType, "audio/")) && reply.Ok?
    ensures e.status == Completed ==> e.message == [] && e.captions == ParseSrt(reply.value)
    ensures e.status == Error ==> e.message != [] && e.captions == []
    ensures e.status == Error && reply.Ok? ==> e.message == ExtractError
    ensures decoded.None? && !StartsWith(file.mimeType, "audio/") ==>
      e.status == Error && e.message == ExtractError && e.path == [Extracting, Error]
    ensures (decoded.Some? || StartsWith(file.mimeType, "audio/")) && reply.Failed? ==>
      e.status == Error && e.message == ErrorText(reply.message) && e.path == [Extracting, Transcribing, Error]
    ensures e.status == Completed ==> e.path == [Extracting, Transcribing, Completed]
  {
    if decoded.None? && !StartsWith(file.mimeType, "audio/") then
      Ending(Error, ErrorText(ExtractError), [], [Extracting, Error])
    else if reply.Failed? then
      Ending(Error, ErrorText(reply.message), [], [Extracting, Transcribing, Error])
    else
      Ending(Completed, [], ParseSrt(reply.value), [Extracting, Transcribing, Completed])
  }

  /** The file to download: its name and its SubRip text. */
  datatype Download = Download(fileName: string, contents: string)

  /** The state the upload component keeps between renders. */
  class Session {
    var status: Status
    var captions: seq<Caption>
    var fileName: string
    var errorMessage: string
    /** Whether a video preview URL is held (`videoUrl !== null`). */
    var hasVideo: bool
    var currentFile: Option<File>
    /** Every status the session has been in, oldest first. */
    ghost var trace: seq<Status>

    ghost predicate Valid()
      reads this
    {
      && ValidTrace(trace) && trace[|trace| - 1] == status
      && (status == Error ==> errorMessage != [])
      && forall i :: 0 <= i < |captions| ==> Timed(captions[i])
    }

    constructor()
      ensures Valid()
      ensures status == Idle && captions == [] && fileName == [] && errorMessage == []
      ensures !hasVideo && currentFile == None
    {
      status := Idle;
      captions := [];
      fileName := [];
      errorMessage := [];
      hasVideo := false;
      currentFile := None;
      trace := [Idle];
    }

    /** `processFile`: record the file, clear the captions and the message,
        then extract, transcribe and parse, stopping at the first failure. */
    method ProcessFile(file: File, decoded: Option<AudioBuffer>, reply: Outcome<string>)
      requires Valid() && (status == Idle || status == Error)
      requires decoded.Some? ==> decoded.value.Valid()
      modifies this`fileName, this`captions, this`errorMessage, this`hasVideo, this`status, this`trace
      ensures Valid()
      ensures var e := ProcessRun(file, decoded, reply);
        && status == e.status && errorMessage == e.message && captions == e.captions
        && trace == old(trace) + e.path
      ensures fileName == file.name && hasVideo == StartsWith(file.mimeType, "video/")
    {
      var audio := ExtractAudio(file, decoded);
      var st: Status, msg: string, cs: seq<Caption>;
      ghost var path: seq<Status>;
      if audio.Failed? {
        st, msg, cs, path := Error, ErrorText(audio.message), [], [Extracting, Error];
      } else if reply.Failed? {
        st, msg, cs, path := Error, ErrorText(reply.message), [], [Extracting, Transcribing, Error];
      } else {
        st, msg, cs, path := Completed, [], ParseSrt(reply.value), [Extracting, Transcribing, Completed];
      }
      assert Ending(st, msg, cs, path) == ProcessRun(file, decoded, reply);
      assert Chained(path) && path[0] == Extracting;
      ValidTraceExtend(trace, path);
      fileName, captions, errorMessage := file.name, cs, msg;
      hasVideo, status, trace := StartsWith(file.mimeType, "video/"), st, trace + path;
    }

    /** `validateAndProcess`: an oversized file only sets the error screen
        (the captions, file name and preview stay as they were); without a
        signed-in user nothing changes; otherwise the file becomes the
        current one and is processed. */
    method ValidateAndProcess(file: File, signedIn: bool, decoded: Option<AudioBuffer>, reply: Outcome<string>)
      requires Valid() && (status == Idle || status == Error)
      requires decoded.Some? ==> decoded.value.Valid()
      modifies this
      ensures Valid()
      ensures TooLarge(file.size) ==>
        && status == Error && errorMessage == TooLargeMessage(file.size)
        && captions == old(captions) && fileName == old(fileName) && hasVideo == old(hasVideo)
        && currentFile == old(currentFile) && trace == old(trace) + [Error]
      ensures !TooLarge(file.size) && !signedIn ==>
        && status == old(status) && errorMessage == old(errorMessage)
        && captions == old(captions) && fileName == old(fileName) && hasVideo == old(hasVideo)
        && currentFile == old(currentFile) && trace == old(trace)
      ensures !TooLarge(file.size) && signedIn ==>
        var e := ProcessRun(file, decoded, reply);
        && status == e.status && errorMessage == e.message && captions == e.captions
        && trace == old(trace) + e.path && currentFile == Some(file)
        && fileName == file.name && hasVideo == StartsWith(file.mimeType, "video/")
    {
      if TooLarge(file.size) {
        status := Error;
        ValidTraceExtend(trace, [Error]);
        trace := trace + [Error];
        errorMessage := TooLargeMessage(file.size);
        return;
      }
      if !signedIn {
        return;
      }
      currentFile := Some(file);
      ProcessFile(file, decoded, reply);
    }

    /** Typing in a caption's field: every caption with that id gets the
        new text. */
    method EditCaption(id: int, text: string)
      requires Valid()
      modifies this
      ensures Valid()
      ensures captions == EditText(old(captions), id, text)
      ensures status == old(status) && fileName == old(fileName) && errorMessage == old(errorMessage)
      ensures hasVideo == old(hasVideo) && currentFile == old(currentFile) && trace == old(trace)
    {
      EditKeepsTiming(captions, id, text);
      captions := EditText(captions, id, text);
    }

    /** The Discard button: back to the upload screen, dropping the preview.
        The caption list itself is not cleared. */
    method Discard()
      requires Valid() && status == Completed
      modifies this
      ensures Valid()
      ensures status == Idle && !hasVideo && trace == old(trace) + [Idle]
      ensures captions == old(captions) && fileName == old(fileName) && errorMessage == old(errorMessage)
      ensures currentFile == old(currentFile)
    {
      ValidTraceExtend(trace, [Idle]);
      status := Idle;
      trace := trace + [Idle];
      hasVideo := false;
    }

    /** The caption highlighted at playback time `t` (seconds). */
    function CurrentCaption(t: real): (r: Option<Caption>)
      reads this
      ensures r.Some? ==> r.value in captions && Covers(r.value, t)
      ensures r.None? <==> forall i :: 0 <= i < |captions| ==> !Covers(captions[i], t)
      ensures r.Some? ==> exists i :: 0 <= i < |captions| && captions[i] == r.value && Covers(captions[i], t)
                            && forall j :: 0 <= j < i ==> !Covers(captions[j], t)
    {
      ActiveCaption(captions, t)
    }

    /** `handleDownload`: the export name and the SubRip text, which the
        parser reads back as the caption list whenever every caption is
        exportable. */
    function Export(): (d: Download)
      reads this
      ensures d.fileName == ExportName(fileName) && d.contents == Serialize(captions)
      ensures (forall i :: 0 <= i < |captions| ==> Exportable(captions[i])) ==> ParseSrt(d.contents) == captions
    {
      var d := Download(ExportName(fileName), Serialize(captions));
      assert (forall i :: 0 <= i < |captions| ==> Exportable(captions[i])) ==> ParseSrt(d.contents) == captions by {
        if forall i :: 0 <= i < |captions| ==> Exportable(captions[i]) {
          RoundTrip(captions);
        }
      }
      d
    }
  }
}
