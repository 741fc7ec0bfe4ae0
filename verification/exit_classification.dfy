/** The `close` handler of the spawned child
    (packages/parity-electron/src/runParity.js:27-30, 73-96): a decision on the
    exit code, the signal, the last recorded output line and the launch
    arguments `parityArgv()` returns when the child exits. */
module ExitClassification {

  import opened Wrappers
  import opened Text
  import LastLine

  /** Output lines that mean another client instance already holds the
      network port or the database lock; a child that exits after printing
      one of them is left to die quietly. */
  const CatchableErrors: seq<string> := [
    "is already in use, make sure that another instance of an Ethereum client is not running",
    "IO error: While lock file:"
  ]

  /** The four ways the handler can end. `HostExit` stands for `app.exit(status)`;
      `Fatal` for the thrown `Error`, with the values it is built from. */
  datatype Outcome =
    | Clean
    | BenignConflict
    | HostExit(status: int)
    | Fatal(exitCode: Option<int>, signal: Option<string>, message: string)

  /** `errors.some(error => line.includes(error))`, scanning left to right. */
  predicate SomeIncluded(line: string, errors: seq<string>)
    decreases |errors|
  {
    |errors| > 0 && (Includes(line, errors[0]) || SomeIncluded(line, errors[1..]))
  }

  /** Reference reading of `some`: one of the strings occurs somewhere in the line. */
  ghost predicate HasSignature(line: string, errors: seq<string>)
  {
    exists j :: 0 <= j < |errors| && Occurs(line, errors[j])
  }

  lemma {:induction false} SomeIncludedIffSignature(line: string, errors: seq<string>)
    ensures SomeIncluded(line, errors) <==> HasSignature(line, errors)
    decreases |errors|
  {
    if |errors| > 0 {
      IncludesIffOccurs(line, errors[0]);
      SomeIncludedIffSignature(line, errors[1..]);
      if HasSignature(line, errors[1..]) {
        var j :| 0 <= j < |errors[1..]| && Occurs(line, errors[1..][j]);
        assert Occurs(line, errors[j + 1]);
      }
      if HasSignature(line, errors) {
        var j :| 0 <= j < |errors| && Occurs(line, errors[j]);
        if j > 0 {
          assert Occurs(line, errors[1..][j - 1]);
        }
      }
    }
  }

  /** `logLastLine` is truthy: a line was recorded and it is not empty. */
  predicate Captured(lastLine: Option<string>)
  {
    lastLine.Some? && |lastLine.value| > 0
  }

  /** The benign-conflict test as the handler states it: a line was captured
      and it contains one of the catchable errors. */
  predicate IsBenignLine(lastLine: Option<string>)
  {
    Captured(lastLine) && SomeIncluded(lastLine.value, CatchableErrors)
  }

  /** `${v}` for the exit code and the signal: `null` prints as "null". */
  function ShowCode(code: Option<int>): (text: string)
  {
    match code
    case None => "null"
    case Some(n) => IntToString(n)
  }

  function ShowSignal(signal: Option<string>): (text: string)
  {
    match signal
    case None => "null"
    case Some(s) => s
  }

  const MessageHead: string := "Exit code "
  const MessageMiddle: string := ", with signal "

  /** The text of the thrown error. */
  function FatalMessage(code: Option<int>, signal: Option<string>): (message: string)
  {
    MessageHead + ShowCode(code) + MessageMiddle + ShowSignal(signal) + "."
  }

  /** Recovers the exit code from an error message (None when the text is not
      of that shape). */
  function CodeOfMessage(message: string): (code: Option<Option<int>>)
  {
    if !StartsWith(message, MessageHead) then None
    else
      var field := TakeUntil(message[|MessageHead|..], ',');
      if field == "null" then Some(None)
      else match ParseInt(field)
        case Some(n) => Some(Some(n))
        case None => None
  }

  /** The rendered exit code never contains a comma, so the comma of
      `MessageMiddle` is the first one in the message after `MessageHead`. */
  lemma ShowCodeHasNoComma(code: Option<int>)
    ensures forall k :: 0 <= k < |ShowCode(code)| ==> ShowCode(code)[k] != ','
  {
    if code.Some? && code.value < 0 {
      var shown := ShowCode(code);
      assert forall k :: 1 <= k < |shown| ==> shown[k] == DecimalDigits(-code.value)[k - 1];
    }
  }

  /** The thrown message carries the exit code recoverably, so two fatal exits
      with different codes never produce the same text. */
  lemma CodeOfFatalMessage(code: Option<int>, signal: Option<string>)
    ensures CodeOfMessage(FatalMessage(code, signal)) == Some(code)
  {
    var shown := ShowCode(code);
    var rest := MessageMiddle + ShowSignal(signal) + ".";
    var message := FatalMessage(code, signal);
    assert message == MessageHead + (shown + rest);
    assert message[..|MessageHead|] == MessageHead;
    assert message[|MessageHead|..] == shown + rest;
    ShowCodeHasNoComma(code);
    TakeUntilConcat(shown, ',', rest);
    if code.Some? {
      ParseIntToString(code.value);
      assert shown != "null" by {
        assert IsDigit(shown[0]) || shown[0] == '-';
      }
    }
  }

  /** Recovers the signal text from an error message: what stands between
      `MessageMiddle` and the final '.' (None when the text is not of that shape). */
  function SignalTextOfMessage(message: string): (r: Option<string>)
    ensures r.Some? ==> |r.value| < |message|
  {
    if !StartsWith(message, MessageHead) then None
    else
      var afterHead := message[|MessageHead|..];
      var field := TakeUntil(afterHead, ',');
      var rest := afterHead[|field|..];
      if StartsWith(rest, MessageMiddle) && |rest| > |MessageMiddle| && rest[|rest| - 1] == '.'
      then Some(rest[|MessageMiddle|..|rest| - 1])
      else None
  }

  /** The thrown message carries the signal as it is rendered (`null` for none),
      even when the signal text itself contains commas. */
  lemma SignalOfFatalMessage(code: Option<int>, signal: Option<string>)
    ensures SignalTextOfMessage(FatalMessage(code, signal)) == Some(ShowSignal(signal))
  {
    var shown := ShowCode(code);
    var sig := ShowSignal(signal);
    var rest := MessageMiddle + sig + ".";
    var message := FatalMessage(code, signal);
    assert message == MessageHead + (shown + rest);
    assert message[..|MessageHead|] == MessageHead;
    var afterHead := message[|MessageHead|..];
    assert afterHead == shown + rest;
    ShowCodeHasNoComma(code);
    TakeUntilConcat(shown, ',', rest);
    assert afterHead[|shown|..] == rest;
    assert rest[..|MessageMiddle|] == MessageMiddle;
    assert rest[|MessageMiddle|..|rest| - 1] == sig;
  }

  /** Two fatal exits with equal messages had the same signal, unless one of
      them is literally named "null" and so prints like a missing signal. */
  lemma FatalMessageDeterminesSignal(c1: Option<int>, s1: Option<string>, c2: Option<int>, s2: Option<string>)
    requires FatalMessage(c1, s1) == FatalMessage(c2, s2)
    ensures ShowSignal(s1) == ShowSignal(s2)
    ensures s1 != Some("null") && s2 != Some("null") ==> s1 == s2
  {
    SignalOfFatalMessage(c1, s1);
    SignalOfFatalMessage(c2, s2);
  }

  lemma FatalMessageDeterminesCode(c1: Option<int>, s1: Option<string>, c2: Option<int>, s2: Option<string>)
    requires FatalMessage(c1, s1) == FatalMessage(c2, s2)
    ensures c1 == c2
  {
    CodeOfFatalMessage(c1, s1);
    CodeOfFatalMessage(c2, s2);
  }

  /** The `close` handler. `argv` is what `parityArgv()` returns when the child
      exits; only its emptiness matters. */
  function Classify(exitCode: Option<int>, signal: Option<string>, lastLine: Option<string>, argv: seq<string>): (r: Outcome)
    ensures r.Clean? <==> exitCode == Some(0)
    ensures r.BenignConflict? <==>
      exitCode != Some(0) && Captured(lastLine) && HasSignature(lastLine.value, CatchableErrors)
    ensures r.HostExit? <==>
      exitCode != Some(0) && !r.BenignConflict? && |argv| > 0
    ensures r.Fatal? <==>
      exitCode != Some(0) && !r.BenignConflict? && |argv| == 0
    ensures r.HostExit? ==> r.status == 1
    ensures r.Fatal? ==> r.exitCode == exitCode && r.signal == signal && r.message == FatalMessage(exitCode, signal)
    ensures r.Fatal? ==> CodeOfMessage(r.message) == Some(exitCode) && SignalTextOfMessage(r.message) == Some(ShowSignal(signal))
  {
    SomeIncludedIffSignature(lastLine.GetOr([]), CatchableErrors);
    CodeOfFatalMessage(exitCode, signal);
    SignalOfFatalMessage(exitCode, signal);
    if exitCode == Some(0) then Clean
    else if IsBenignLine(lastLine) then BenignConflict
    else if |argv| > 0 then HostExit(1)
    else Fatal(exitCode, signal, FatalMessage(exitCode, signal))
  }

  /** The whole life of one child as the handler sees it: the stored line
      starts unset (`let logLastLine;`) and follows every output chunk. */
  function CloseAfterOutput(exitCode: Option<int>, signal: Option<string>, chunks: seq<string>, argv: seq<string>): (r: Outcome)
  {
    Classify(exitCode, signal, LastLine.ObserveAll(None, chunks), argv)
  }

  /** A non-zero exit is benign exactly when the LAST recordable chunk carries a
      signature: an earlier matching chunk followed by other output does not count,
      and a child that printed nothing is never benign. */
  lemma CloseAfterOutputBenign(exitCode: Option<int>, signal: Option<string>, chunks: seq<string>, argv: seq<string>)
    ensures CloseAfterOutput(exitCode, signal, chunks, argv).BenignConflict? <==>
      exitCode != Some(0) &&
      exists i :: LastLine.IsLastRecordable(chunks, i) && HasSignature(chunks[i], CatchableErrors)
  {
    if exists j :: 0 <= j < |chunks| && LastLine.Recordable(chunks[j]) {
      var j :| 0 <= j < |chunks| && LastLine.Recordable(chunks[j]);
      var i := LastLine.LastRecordableAfter(chunks, j);
      LastLine.ObserveAllIsLastRecordable(None, chunks, i);
      forall i' | LastLine.IsLastRecordable(chunks, i')
        ensures i' == i
      {
      }
    } else {
      LastLine.ObserveAllNoneRecordable(None, chunks);
    }
  }

  /** A signature anywhere inside the last line, with any text around it,
      makes a failed child benign, whether or not launch arguments were given. */
  lemma SignatureAnywhereIsBenign(code: int, signal: Option<string>, before: string, j: int, after: string, argv: seq<string>)
    requires code != 0 && 0 <= j < |CatchableErrors|
    ensures Classify(Some(code), signal, Some(before + CatchableErrors[j] + after), argv) == BenignConflict
  {
    var line := before + CatchableErrors[j] + after;
    assert line[|before|..|before| + |CatchableErrors[j]|] == CatchableErrors[j];
    assert OccursAt(line, CatchableErrors[j], |before|);
  }

  /** The match is case-sensitive: both signatures contain a capital letter,
      so a last line without capitals (for instance a signature written in
      lower case) never makes an exit benign, whatever the exit code, the signal
      and the launch arguments. */
  lemma LineWithoutCapitalsNeverBenign(exitCode: Option<int>, signal: Option<string>, line: string, argv: seq<string>)
    requires NoUpper(line)
    ensures !Classify(exitCode, signal, Some(line), argv).BenignConflict?
    ensures exitCode != Some(0) ==> (Classify(exitCode, signal, Some(line), argv).HostExit? <==> |argv| > 0)
    ensures exitCode != Some(0) ==> (Classify(exitCode, signal, Some(line), argv).Fatal? <==> |argv| == 0)
  {
    UpperBlocksOccurrence(line, CatchableErrors[0], 57);
    UpperBlocksOccurrence(line, CatchableErrors[1], 0);
  }

  lemma LowerCasedSignatureNotBenign(exitCode: Option<int>, signal: Option<string>, j: int, argv: seq<string>)
    requires 0 <= j < |CatchableErrors|
    ensures !Classify(exitCode, signal, Some(ToLower(CatchableErrors[j])), argv).BenignConflict?
  {
    LineWithoutCapitalsNeverBenign(exitCode, signal, ToLower(CatchableErrors[j]), argv);
  }
}
