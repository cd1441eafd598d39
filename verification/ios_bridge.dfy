/** The two pure pieces of the Gradle task that installs the iOS
    transport: where the iOS app lives, derived from the root directory
    path, and `writeBridge`, which adds the transport registration to
    `ContentView.swift` just before the line that builds the main view
    controller — once. The file is given as its lines. */
module IosBridge {
  import opened Strings

  /** The line `writeBridge` looks for. */
  const TARGET_LINE: string := "MainViewControllerKt.MainViewController()"

  /** The call whose presence means the bridge is already installed. */
  const PROVIDE_CALL: string := "GrpcTransportProvider.provide"

  /** The line `writeBridge` inserts. */
  const NEW_LINE: string := "        " + PROVIDE_CALL + "(IosGrpcTransport())"

  /** `indexOfFirst { it.contains(sub) }`: the first line containing
      `sub`, or -1. */
  function IndexOfFirst(lines: seq<string>, sub: string): (i: int)
    ensures -1 <= i < |lines|
    ensures i >= 0 ==> Contains(lines[i], sub)
    ensures i >= 0 ==> forall j :: 0 <= j < i ==> !Contains(lines[j], sub)
    ensures i == -1 <==> forall j :: 0 <= j < |lines| ==> !Contains(lines[j], sub)
  {
    if lines == [] then -1
    else if Contains(lines[0], sub) then 0
    else
      var k := IndexOfFirst(lines[1..], sub);
      assert forall j :: 1 <= j < |lines| ==> lines[j] == lines[1..][j - 1];
      if k == -1 then -1 else k + 1
  }

  /** `lines.any { it.contains(sub) }`. */
  predicate AnyContains(lines: seq<string>, sub: string) {
    exists j :: 0 <= j < |lines| && Contains(lines[j], sub)
  }

  /** `writeBridge`: the lines of the file afterwards. The new line goes
      in front of the first line that builds the main view controller,
      unless there is no such line or the registration is already there;
      then the file is not rewritten. */
  function WriteBridge(lines: seq<string>): seq<string> {
    InsertBefore(lines, TARGET_LINE, PROVIDE_CALL, NEW_LINE)
  }

  /** Line `x` in front of the first line containing `target`, unless no
      line contains it or some line already contains `marker`. */
  function InsertBefore(lines: seq<string>, target: string, marker: string, x: string): seq<string> {
    var at := IndexOfFirst(lines, target);
    if at != -1 && !AnyContains(lines, marker) then lines[..at] + [x] + lines[at..]
    else lines
  }

  /** The inserted line registers the transport. */
  lemma NewLineProvides()
    ensures Contains(NEW_LINE, PROVIDE_CALL)
  {
    assert NEW_LINE[8..8 + |PROVIDE_CALL|] == PROVIDE_CALL;
    assert At(NEW_LINE, 8, PROVIDE_CALL);
  }

  /** On insertion: exactly one line more, the registration sits right
      before the first target line, and taking it out gives back the
      original lines in their order. */
  lemma BridgeInserts(lines: seq<string>)
    requires !AnyContains(lines, PROVIDE_CALL)
    requires AnyContains(lines, TARGET_LINE)
    ensures 0 <= IndexOfFirst(lines, TARGET_LINE)
    ensures |WriteBridge(lines)| == |lines| + 1
    ensures WriteBridge(lines)[IndexOfFirst(lines, TARGET_LINE)] == NEW_LINE
    ensures Contains(WriteBridge(lines)[IndexOfFirst(lines, TARGET_LINE) + 1], TARGET_LINE)
    ensures forall j :: 0 <= j < IndexOfFirst(lines, TARGET_LINE) ==> !Contains(WriteBridge(lines)[j], TARGET_LINE)
    ensures WriteBridge(lines)[..IndexOfFirst(lines, TARGET_LINE)]
            + WriteBridge(lines)[IndexOfFirst(lines, TARGET_LINE) + 1..] == lines
  {
    Inserts(lines, TARGET_LINE, PROVIDE_CALL, NEW_LINE);
  }

  /** `BridgeInserts` for any target, marker and new line. */
  lemma Inserts(lines: seq<string>, target: string, marker: string, x: string)
    requires !AnyContains(lines, marker) && AnyContains(lines, target)
    ensures var at := IndexOfFirst(lines, target);
            var r := InsertBefore(lines, target, marker, x);
            0 <= at && |r| == |lines| + 1 && r[at] == x && Contains(r[at + 1], target)
            && (forall j :: 0 <= j < at ==> !Contains(r[j], target))
            && r[..at] + r[at + 1..] == lines
  {
    var at := IndexOfFirst(lines, target);
    var j :| 0 <= j < |lines| && Contains(lines[j], target);
    assert at != -1;
    var r := InsertBefore(lines, target, marker, x);
    assert r == lines[..at] + [x] + lines[at..];
    InsertedAt(lines, at, x, r);
    assert Contains(r[at + 1], target) by {
      assert r[at + 1] == lines[at];
    }
    forall j | 0 <= j < at ensures !Contains(r[j], target) {
      assert r[j] == lines[j];
    }
  }

  /** A line inserted at `at`: the lines before it stay, the line at `at`
      moves up by one, and taking the new line out gives the old lines. */
  lemma InsertedAt(lines: seq<string>, at: nat, x: string, r: seq<string>)
    requires at < |lines| && r == lines[..at] + [x] + lines[at..]
    ensures |r| == |lines| + 1 && r[at] == x && r[at + 1] == lines[at]
    ensures forall j :: 0 <= j < at ==> r[j] == lines[j]
    ensures r[..at] + r[at + 1..] == lines
  {
    assert r[..at] == lines[..at];
    assert r[at + 1..] == lines[at..];
    assert lines[..at] + lines[at..] == lines;
  }

  /** Without a target line, or with the registration already present,
      the lines stay as they are. */
  lemma BridgeUnchanged(lines: seq<string>)
    requires !AnyContains(lines, TARGET_LINE) || AnyContains(lines, PROVIDE_CALL)
    ensures WriteBridge(lines) == lines
  {
  }

  /** Running `writeBridge` twice installs the bridge once. */
  lemma BridgeIdempotent(lines: seq<string>)
    ensures WriteBridge(WriteBridge(lines)) == WriteBridge(lines)
  {
    var r := WriteBridge(lines);
    if r != lines {
      var at := IndexOfFirst(lines, TARGET_LINE);
      NewLineProvides();
      assert r[at] == NEW_LINE;
      assert AnyContains(r, PROVIDE_CALL);
    }
  }

  // ---------------------------------------------------------------------
  // The iOS app directory
  // ---------------------------------------------------------------------

  /** The iOS app directory for a root path with separator `sep` (`/` on
      a Mac, `\` on Windows): every `<sep>composeApp` becomes
      `<sep>iosApp`, then `<sep>iosApp` is appended. */
  function IosAppDir(root: string, sep: char): string {
    ReplaceAll(root, [sep] + "composeApp", [sep] + "iosApp") + [sep] + "iosApp"
  }

  /** A root without a `composeApp` segment just gains `<sep>iosApp`. */
  lemma IosDirPlain(root: string, sep: char)
    requires !Contains(root, [sep] + "composeApp")
    ensures IosAppDir(root, sep) == root + [sep] + "iosApp"
  {
    ReplaceAbsent(root, [sep] + "composeApp", [sep] + "iosApp");
  }

  /** A root that is the project's `composeApp` module, `<project><sep>composeApp`,
      leads to `<project><sep>iosApp<sep>iosApp`. */
  lemma IosDirFromModule(project: string, sep: char)
    requires forall i: nat :: i < |project| ==> !At(project + [sep] + "composeApp", i, [sep] + "composeApp")
    ensures IosAppDir(project + [sep] + "composeApp", sep) == project + [sep] + "iosApp" + [sep] + "iosApp"
  {
    assert project + [sep] + "composeApp" == project + ([sep] + "composeApp");
    ReplaceAtEnd(project, [sep] + "composeApp", [sep] + "iosApp");
    assert project + ([sep] + "iosApp") == project + [sep] + "iosApp";
  }
}
