/**
 * The inbound pose protocol read by `ImageSender.ApplyTransformMessage`:
 * a text of lines, each line a record `T x y z` (a translation) or
 * `R x y z` (Euler angles in radians); every other line is ignored.
 *
 * Float parsing is `float.TryParse`, which this model does not define: it
 * is a parameter `parse`, and a failed parse yields 0, the value `TryParse`
 * writes to its out argument on failure. The conversion from Euler angles to
 * an orientation (`Mathf.Rad2Deg`, `Quaternion.Euler`, `Matrix4x4.Rotate`) is
 * kept symbolic: a rotation records which three angles it was built from.
 */
module PoseProtocol {
  import opened Common
  import opened DotNetText
  import opened Geometry

  /** What one line of the message says, after tokenising. */
  datatype Record =
    | TranslationRecord(x: string, y: string, z: string)
    | RotationRecord(x: string, y: string, z: string)
    | OtherLine

  /** The position every call writes to the sink, whatever the message says. */
  const SinkPosition := Vec3(0.0, 0.5, 0.0)

  /** The starting values of the parser's locals: `Vector3.zero` and `Matrix4x4.identity`. */
  const InitialPose := Pose(Vec3(0.0, 0.0, 0.0), Identity)

  const LineSeparators: set<char> := {'\n', '\r'}

  /** `msg.Split(new[] { '\n', '\r' }, StringSplitOptions.RemoveEmptyEntries)`. */
  function Lines(msg: string): (lines: seq<string>)
    ensures forall k :: 0 <= k < |lines| ==> lines[k] != "" && NoSeparator(lines[k], LineSeparators)
    ensures Concat(lines) == Without(msg, LineSeparators)
    ensures CutAtMaximalRuns(msg, LineSeparators, lines)
  {
    SplitNonEmpty(msg, LineSeparators)
  }

  /**
   * A message is cut at every run of `\n` and `\r`, however long: any
   * non-empty lines with such runs between them are read back as they are.
   */
  lemma LinesDetermined(msg: string, gaps: seq<string>, lines: seq<string>)
    requires MaximalRuns(msg, LineSeparators, gaps, lines)
    ensures Lines(msg) == lines
  {
    SplitNonEmptyDetermined(msg, LineSeparators, gaps, lines);
  }

  /** `line.Trim().Split(' ', StringSplitOptions.RemoveEmptyEntries)`: only the space character separates tokens. */
  function Tokens(line: string): (parts: seq<string>)
    ensures forall k :: 0 <= k < |parts| ==> parts[k] != "" && NoSeparator(parts[k], {' '})
    ensures Concat(parts) == Without(Trim(line), {' '})
    ensures CutAtMaximalRuns(Trim(line), {' '}, parts)
  {
    SplitNonEmpty(Trim(line), {' '})
  }

  /**
   * A trimmed line is cut at every run of spaces, however long: tokens with
   * such runs between them are read back as they are.
   */
  lemma TokensDetermined(line: string, gaps: seq<string>, parts: seq<string>)
    requires MaximalRuns(Trim(line), {' '}, gaps, parts)
    ensures Tokens(line) == parts
  {
    SplitNonEmptyDetermined(Trim(line), {' '}, gaps, parts);
  }

  /**
   * The record a token list stands for: a translation when the first token
   * is exactly `T` and there are at least four tokens, a rotation when it is
   * `R` and there are at least four; tokens after the fourth are not read.
   */
  function Classify(parts: seq<string>): (r: Record)
    ensures r.TranslationRecord? <==> |parts| >= 4 && parts[0] == "T"
    ensures r.RotationRecord? <==> |parts| >= 4 && parts[0] == "R"
    ensures !r.OtherLine? ==> [r.x, r.y, r.z] == parts[1..4]
  {
    if |parts| == 0 then OtherLine
    else if parts[0] == "T" && |parts| >= 4 then TranslationRecord(parts[1], parts[2], parts[3])
    else if parts[0] == "R" && |parts| >= 4 then RotationRecord(parts[1], parts[2], parts[3])
    else OtherLine
  }

  /** Tokens after the fourth make no difference. */
  lemma ExtraTokensIgnored(parts: seq<string>, extra: seq<string>)
    requires |parts| >= 4
    ensures Classify(parts + extra) == Classify(parts)
  {
    assert (parts + extra)[..4] == parts[..4];
  }

  /** The records of the lines of a message, one per line. */
  function Records(lines: seq<string>): (recs: seq<Record>)
    ensures |recs| == |lines|
  {
    if |lines| == 0 then []
    else Records(lines[..|lines| - 1]) + [Classify(Tokens(lines[|lines| - 1]))]
  }

  /** The record at position `k` is the one line `k` holds. */
  lemma {:induction false} RecordsAt(lines: seq<string>, k: nat)
    requires k < |lines|
    ensures Records(lines)[k] == Classify(Tokens(lines[k]))
    decreases |lines|
  {
    var init, last := lines[..|lines| - 1], Classify(Tokens(lines[|lines| - 1]));
    var before := Records(init);
    assert Records(lines) == before + [last];
    if k < |lines| - 1 {
      RecordsAt(init, k);
      assert init[k] == lines[k];
      assert (before + [last])[k] == before[k];
    }
  }

  /** The value `float.TryParse(token, out v)` leaves in `v`: the parsed number, or 0 on failure. */
  function ParseOrZero(parse: string -> Option<real>, token: string): real
  {
    match parse(token)
    case Some(r) => r
    case None => 0.0
  }

  /** The translation of a `T` record, each axis from its own token. */
  function TranslationOf(parse: string -> Option<real>, rec: Record): Vec3
    requires rec.TranslationRecord?
  {
    Vec3(ParseOrZero(parse, rec.x), ParseOrZero(parse, rec.y), ParseOrZero(parse, rec.z))
  }

  /** The rotation of an `R` record. */
  function RotationOf(parse: string -> Option<real>, rec: Record): Rotation
    requires rec.RotationRecord?
  {
    EulerRadians(ParseOrZero(parse, rec.x), ParseOrZero(parse, rec.y), ParseOrZero(parse, rec.z))
  }

  /** One iteration of the parser's loop: a record sets one of the two locals; other lines leave both alone. */
  function Step(parse: string -> Option<real>, pose: Pose, rec: Record): Pose
  {
    match rec
    case TranslationRecord(_, _, _) => pose.(position := TranslationOf(parse, rec))
    case RotationRecord(_, _, _) => pose.(rotation := RotationOf(parse, rec))
    case OtherLine => pose
  }

  /** The locals after the loop has run over lines with records `recs`, starting from `InitialPose`. */
  function ParseRecords(parse: string -> Option<real>, recs: seq<Record>): Pose
  {
    if |recs| == 0 then InitialPose
    else Step(parse, ParseRecords(parse, recs[..|recs| - 1]), recs[|recs| - 1])
  }

  /** The position and rotation `ApplyTransformMessage` computes for `msg`, before it writes the sink. */
  function ParseMessage(parse: string -> Option<real>, msg: string): Pose
  {
    ParseRecords(parse, Records(Lines(msg)))
  }

  lemma {:induction false} RotationFromRecordAt(parse: string -> Option<real>, recs: seq<Record>, k: nat)
    requires k < |recs| && recs[k].RotationRecord?
    requires forall j :: k < j < |recs| ==> !recs[j].RotationRecord?
    ensures ParseRecords(parse, recs).rotation == RotationOf(parse, recs[k])
    decreases |recs|
  {
    var init, last := recs[..|recs| - 1], recs[|recs| - 1];
    if k < |recs| - 1 {
      assert !last.RotationRecord?;
      assert ParseRecords(parse, recs).rotation == ParseRecords(parse, init).rotation;
      assert init[k] == recs[k];
      assert forall j :: k < j < |init| ==> init[j] == recs[j];
      RotationFromRecordAt(parse, init, k);
    }
  }

  lemma {:induction false} RotationWithoutRecord(parse: string -> Option<real>, recs: seq<Record>)
    requires forall k :: 0 <= k < |recs| ==> !recs[k].RotationRecord?
    ensures ParseRecords(parse, recs).rotation == Identity
    decreases |recs|
  {
    if |recs| > 0 {
      var init := recs[..|recs| - 1];
      assert forall k :: 0 <= k < |init| ==> init[k] == recs[k];
      RotationWithoutRecord(parse, init);
    }
  }

  /**
   * The rotation comes from the last `R` record; with no `R` record it is
   * the identity, whatever the sink held before.
   */
  lemma RotationFromLastRotationRecord(parse: string -> Option<real>, recs: seq<Record>)
    ensures (forall k :: 0 <= k < |recs| ==> !recs[k].RotationRecord?) ==>
      ParseRecords(parse, recs).rotation == Identity
    ensures forall k ::
      (0 <= k < |recs| && recs[k].RotationRecord? && (forall j :: k < j < |recs| ==> !recs[j].RotationRecord?)) ==>
      ParseRecords(parse, recs).rotation == RotationOf(parse, recs[k])
  {
    if forall k :: 0 <= k < |recs| ==> !recs[k].RotationRecord? {
      RotationWithoutRecord(parse, recs);
    }
    forall k | 0 <= k < |recs| && recs[k].RotationRecord? && (forall j :: k < j < |recs| ==> !recs[j].RotationRecord?)
      ensures ParseRecords(parse, recs).rotation == RotationOf(parse, recs[k])
    {
      RotationFromRecordAt(parse, recs, k);
    }
  }

  lemma {:induction false} TranslationFromRecordAt(parse: string -> Option<real>, recs: seq<Record>, k: nat)
    requires k < |recs| && recs[k].TranslationRecord?
    requires forall j :: k < j < |recs| ==> !recs[j].TranslationRecord?
    ensures ParseRecords(parse, recs).position == TranslationOf(parse, recs[k])
    decreases |recs|
  {
    var init, last := recs[..|recs| - 1], recs[|recs| - 1];
    if k < |recs| - 1 {
      assert !last.TranslationRecord?;
      assert ParseRecords(parse, recs).position == ParseRecords(parse, init).position;
      assert init[k] == recs[k];
      assert forall j :: k < j < |init| ==> init[j] == recs[j];
      TranslationFromRecordAt(parse, init, k);
    }
  }

  lemma {:induction false} TranslationWithoutRecord(parse: string -> Option<real>, recs: seq<Record>)
    requires forall k :: 0 <= k < |recs| ==> !recs[k].TranslationRecord?
    ensures ParseRecords(parse, recs).position == Vec3(0.0, 0.0, 0.0)
    decreases |recs|
  {
    if |recs| > 0 {
      var init := recs[..|recs| - 1];
      assert forall k :: 0 <= k < |init| ==> init[k] == recs[k];
      TranslationWithoutRecord(parse, init);
    }
  }

  /**
   * The translation comes from the last `T` record, each axis from its own
   * token (0 where the token does not parse, never an earlier value); with
   * no `T` record it is the zero vector.
   */
  lemma TranslationFromLastTranslationRecord(parse: string -> Option<real>, recs: seq<Record>)
    ensures (forall k :: 0 <= k < |recs| ==> !recs[k].TranslationRecord?) ==>
      ParseRecords(parse, recs).position == Vec3(0.0, 0.0, 0.0)
    ensures forall k ::
      (0 <= k < |recs| && recs[k].TranslationRecord? && (forall j :: k < j < |recs| ==> !recs[j].TranslationRecord?)) ==>
      ParseRecords(parse, recs).position == TranslationOf(parse, recs[k])
  {
    if forall k :: 0 <= k < |recs| ==> !recs[k].TranslationRecord? {
      TranslationWithoutRecord(parse, recs);
    }
    forall k | 0 <= k < |recs| && recs[k].TranslationRecord? && (forall j :: k < j < |recs| ==> !recs[j].TranslationRecord?)
      ensures ParseRecords(parse, recs).position == TranslationOf(parse, recs[k])
    {
      TranslationFromRecordAt(parse, recs, k);
    }
  }

  /** The `T` and `R` records, in order. */
  function Recognised(recs: seq<Record>): (r: seq<Record>)
    ensures forall k :: 0 <= k < |r| ==> !r[k].OtherLine?
    ensures |r| <= |recs|
  {
    if |recs| == 0 then []
    else
      var last := recs[|recs| - 1];
      Recognised(recs[..|recs| - 1]) + (if last.OtherLine? then [] else [last])
  }

  /** Lines other than `T` and `R` records change nothing: dropping them gives the same result. */
  lemma {:induction false} OtherLinesIgnored(parse: string -> Option<real>, recs: seq<Record>)
    ensures ParseRecords(parse, Recognised(recs)) == ParseRecords(parse, recs)
  {
    if |recs| > 0 {
      var init, last := recs[..|recs| - 1], recs[|recs| - 1];
      OtherLinesIgnored(parse, init);
      var r := Recognised(recs);
      if !last.OtherLine? {
        assert r == Recognised(init) + [last];
        assert r[..|r| - 1] == Recognised(init) && r[|r| - 1] == last;
      } else {
        assert r == Recognised(init);
      }
    }
  }

  /**
   * A message with no `R` record gives the identity rotation, even when the
   * sink held another orientation before.
   */
  lemma NoRotationRecordGivesIdentity(parse: string -> Option<real>, msg: string)
    requires forall k :: 0 <= k < |Records(Lines(msg))| ==> !Records(Lines(msg))[k].RotationRecord?
    ensures ParseMessage(parse, msg).rotation == Identity
  {
    RotationWithoutRecord(parse, Records(Lines(msg)));
  }

  /** A token in the sense of the protocol: non-empty, with no white space in it. */
  predicate IsToken(t: string)
  {
    t != "" && forall i :: 0 <= i < |t| ==> !IsWhiteSpace(t[i])
  }

  /** The line a sender writes for a record: its tokens joined by single spaces. */
  function RecordLine(tag: string, x: string, y: string, z: string): string
  {
    Join([tag, x, y, z], ' ')
  }

  /** Space-joined tokens come back as the same tokens. */
  lemma TokensOfJoinedLine(parts: seq<string>)
    requires |parts| > 0 && forall k :: 0 <= k < |parts| ==> IsToken(parts[k])
    ensures Tokens(Join(parts, ' ')) == parts
  {
    forall k | 0 <= k < |parts| ensures parts[k] != "" && NoSeparator(parts[k], {' '}) {
      TokenHasNoSpace(parts[k]);
    }
    JoinedTokens(parts);
  }

  lemma TokenHasNoSpace(t: string)
    requires IsToken(t)
    ensures t != "" && NoSeparator(t, {' '})
  {
    assert forall i :: 0 <= i < |t| ==> !IsWhiteSpace(t[i]);
  }

  /** Non-empty space-free pieces whose join neither starts nor ends with white space come back from `Tokens`. */
  lemma JoinedTokens(parts: seq<string>)
    requires |parts| > 0 && forall k :: 0 <= k < |parts| ==> parts[k] != "" && NoSeparator(parts[k], {' '})
    requires !IsWhiteSpace(parts[0][0]) && !IsWhiteSpace(parts[|parts| - 1][|parts[|parts| - 1]| - 1])
    ensures Tokens(Join(parts, ' ')) == parts
  {
    var line := Join(parts, ' ');
    JoinEnds(parts, ' ');
    TrimUntouched(line);
    assert Tokens(line) == SplitNonEmpty(line, {' '});
    SplitNonEmptyJoined(parts, ' ', {' '});
  }

  /** Newline-joined lines come back as the same lines. */
  lemma LinesOfJoinedMessage(lines: seq<string>)
    requires |lines| > 0
    requires forall k :: 0 <= k < |lines| ==> lines[k] != "" && NoSeparator(lines[k], LineSeparators)
    ensures Lines(Join(lines, '\n')) == lines
  {
    SplitNonEmptyJoined(lines, '\n', LineSeparators);
  }

  /** Lines ended Windows-style: each pair of lines is separated by `"\r\n"`. */
  function CrLfJoin(lines: seq<string>): string
    requires |lines| > 0
  {
    if |lines| == 1 then lines[0] else lines[0] + "\r\n" + CrLfJoin(lines[1..])
  }

  lemma {:induction false} SplitCrLfJoined(lines: seq<string>)
    requires |lines| > 0
    requires forall k :: 0 <= k < |lines| ==> lines[k] != "" && NoSeparator(lines[k], LineSeparators)
    ensures RemoveEmpty(Split(CrLfJoin(lines), LineSeparators)) == lines
  {
    if |lines| == 1 {
      SplitSeparatorFree(lines[0], LineSeparators);
    } else {
      var rest := CrLfJoin(lines[1..]);
      var tail: string := [] + ['\n'] + rest;
      assert CrLfJoin(lines) == lines[0] + ['\r'] + tail;
      SplitAfterPrefix(lines[0], '\r', tail, LineSeparators);
      SplitAfterPrefix([], '\n', rest, LineSeparators);
      SplitCrLfJoined(lines[1..]);
      var pieces := Split(CrLfJoin(lines), LineSeparators);
      assert pieces == [lines[0]] + ([""] + Split(rest, LineSeparators));
      assert pieces[1..] == [""] + Split(rest, LineSeparators);
      assert pieces[1..][1..] == Split(rest, LineSeparators);
    }
  }

  /** `"\r\n"` line ends read the same as `"\n"`: the empty piece between `\r` and `\n` is dropped. */
  lemma LinesOfCrLfMessage(lines: seq<string>)
    requires |lines| > 0
    requires forall k :: 0 <= k < |lines| ==> lines[k] != "" && NoSeparator(lines[k], LineSeparators)
    ensures Lines(CrLfJoin(lines)) == lines
  {
    SplitCrLfJoined(lines);
  }

  lemma RecordLineIsOneLine(tag: string, x: string, y: string, z: string)
    requires IsToken(tag) && IsToken(x) && IsToken(y) && IsToken(z)
    ensures RecordLine(tag, x, y, z) != "" && NoSeparator(RecordLine(tag, x, y, z), LineSeparators)
    ensures Tokens(RecordLine(tag, x, y, z)) == [tag, x, y, z]
  {
    RecordLineTokens(tag, x, y, z);
    RecordLineHasNoLineBreak(tag, x, y, z);
  }

  /** A record line reads back as its four tokens. */
  lemma RecordLineTokens(tag: string, x: string, y: string, z: string)
    requires IsToken(tag) && IsToken(x) && IsToken(y) && IsToken(z)
    ensures Tokens(RecordLine(tag, x, y, z)) == [tag, x, y, z]
  {
    var parts := [tag, x, y, z];
    assert forall k :: 0 <= k < |parts| ==> IsToken(parts[k]);
    TokensOfJoinedLine(parts);
  }

  /** A record line is non-empty and holds no `\n` or `\r`. */
  lemma RecordLineHasNoLineBreak(tag: string, x: string, y: string, z: string)
    requires IsToken(tag) && IsToken(x) && IsToken(y) && IsToken(z)
    ensures RecordLine(tag, x, y, z) != "" && NoSeparator(RecordLine(tag, x, y, z), LineSeparators)
  {
    var parts := [tag, x, y, z];
    assert forall k :: 0 <= k < |parts| ==> IsToken(parts[k]);
    JoinEnds(parts, ' ');
    JoinedNoSeparator(parts, ' ', LineSeparators);
  }

  lemma {:induction false} JoinedNoSeparator(parts: seq<string>, c: char, seps: set<char>)
    requires |parts| > 0 && c !in seps
    requires forall k :: 0 <= k < |parts| ==> forall i :: 0 <= i < |parts[k]| ==> !IsWhiteSpace(parts[k][i])
    requires forall d :: d in seps ==> IsWhiteSpace(d)
    ensures NoSeparator(Join(parts, c), seps)
  {
    if |parts| == 1 {
      assert parts[0] == parts[0][..];
    } else {
      JoinCons(parts, c);
      JoinedNoSeparator(parts[1..], c, seps);
      var s := Join(parts, c);
      forall i | 0 <= i < |s| ensures s[i] !in seps {
        if i < |parts[0]| {
          assert s[i] == parts[0][i];
          assert !IsWhiteSpace(parts[0][i]);
        } else if i > |parts[0]| {
          assert s[i] == Join(parts[1..], c)[i - |parts[0]| - 1];
        }
      }
    }
  }

  /** The two lines of a message written as the grammar says are read as its two records. */
  lemma WellFormedMessageRecords(x: string, y: string, z: string, a: string, b: string, c: string)
    requires IsToken(x) && IsToken(y) && IsToken(z) && IsToken(a) && IsToken(b) && IsToken(c)
    ensures Records(Lines(Join([RecordLine("T", x, y, z), RecordLine("R", a, b, c)], '\n')))
      == [TranslationRecord(x, y, z), RotationRecord(a, b, c)]
  {
    var t, r := RecordLine("T", x, y, z), RecordLine("R", a, b, c);
    assert IsToken("T") && IsToken("R");
    RecordLineIsOneLine("T", x, y, z);
    RecordLineIsOneLine("R", a, b, c);
    TwoLinesOfJoinedMessage(t, r);
    RecordsOfTwoLines(t, r);
  }

  /** Two newline-joined lines come back as the same two lines. */
  lemma TwoLinesOfJoinedMessage(t: string, r: string)
    requires t != "" && NoSeparator(t, LineSeparators) && r != "" && NoSeparator(r, LineSeparators)
    ensures Lines(Join([t, r], '\n')) == [t, r]
  {
    LinesOfJoinedMessage([t, r]);
  }

  /** The records of two lines are the records of each. */
  lemma RecordsOfTwoLines(t: string, r: string)
    ensures Records([t, r]) == [Classify(Tokens(t)), Classify(Tokens(r))]
  {
    assert [t, r][..1] == [t] && [t][..0] == [];
  }

  /**
   * A message written as the grammar says, `T x y z` then `R a b c`, gives
   * the translation and the rotation of its two records.
   */
  lemma WellFormedMessage(parse: string -> Option<real>, x: string, y: string, z: string, a: string, b: string, c: string)
    requires IsToken(x) && IsToken(y) && IsToken(z) && IsToken(a) && IsToken(b) && IsToken(c)
    ensures ParseMessage(parse, Join([RecordLine("T", x, y, z), RecordLine("R", a, b, c)], '\n'))
      == Pose(Vec3(ParseOrZero(parse, x), ParseOrZero(parse, y), ParseOrZero(parse, z)),
              EulerRadians(ParseOrZero(parse, a), ParseOrZero(parse, b), ParseOrZero(parse, c)))
  {
    var msg := Join([RecordLine("T", x, y, z), RecordLine("R", a, b, c)], '\n');
    var recs := [TranslationRecord(x, y, z), RotationRecord(a, b, c)];
    WellFormedMessageRecords(x, y, z, a, b, c);
    assert ParseMessage(parse, msg) == ParseRecords(parse, recs);
    TranslationThenRotation(parse, recs);
  }

  lemma TranslationThenRotation(parse: string -> Option<real>, recs: seq<Record>)
    requires |recs| == 2 && recs[0].TranslationRecord? && recs[1].RotationRecord?
    ensures ParseRecords(parse, recs) == Pose(TranslationOf(parse, recs[0]), RotationOf(parse, recs[1]))
  {
    assert recs[..1] == [recs[0]] && recs[..1][..0] == [];
  }

  /**
   * A tab does not separate tokens: `T<tab>x y z w` has the first token
   * `T<tab>x`, so the line is not a translation record.
   */
  lemma TabIsNotATokenSeparator(x: string, y: string, z: string, w: string)
    requires IsToken(x) && IsToken(y) && IsToken(z) && IsToken(w)
    ensures Tokens(Join(["T\t" + x, y, z, w], ' '))[0] == "T\t" + x
    ensures Classify(Tokens(Join(["T\t" + x, y, z, w], ' '))) == OtherLine
  {
    var parts := ["T\t" + x, y, z, w];
    TabTokenHasNoSpace(x);
    TokenHasNoSpace(y);
    TokenHasNoSpace(z);
    TokenHasNoSpace(w);
    assert w == parts[3] && w[|w| - 1] == parts[3][|parts[3]| - 1];
    JoinedTokens(parts);
  }

  lemma TabTokenHasNoSpace(x: string)
    requires IsToken(x)
    ensures NoSeparator("T\t" + x, {' '}) && !IsWhiteSpace(("T\t" + x)[0])
  {
    assert forall i :: 2 <= i < |"T\t" + x| ==> ("T\t" + x)[i] == x[i - 2];
  }
}
