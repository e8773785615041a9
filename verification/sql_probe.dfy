/** The SQL probe of the end-to-end tests: how the output of the remote shell script is
    read into a verdict, how the Windows host name is read from a remote `hostname`,
    and which instance the name lookup picks. The remote commands, the waiter and the
    EC2 query are inputs: their replies are the arguments. */
module SqlProbe {
  import opened Wrappers
  import opened Exceptions
  import opened Strings
  import opened Seqs
  import opened PyInt

  /** The reply of `get_command_invocation`: its status and its standard output, None
      when the reply has no `StandardOutputContent` key. */
  datatype Invocation = Invocation(status: string, stdout: Option<string>)

  /** The line prefix the remote script echoes before the exit code of `sqlcmd`. */
  const Marker := "SQL_SUCCESS_MARKER: "

  /** The separator Python's `line.split(': ')` cuts at. */
  const CodeSeparator := ": "

  /** The words the marker starts with: the marker without its trailing separator. */
  const MarkerWord := "SQL_SUCCESS_MARKER"

  /** `line.startswith('SQL_SUCCESS_MARKER: ')`. */
  predicate IsMarkerLine(line: string) {
    Marker <= line
  }

  lemma MarkerParts()
    ensures Marker == MarkerWord + CodeSeparator
    ensures CodeSeparator[0] !in MarkerWord
  {
  }

  /** `line.split(': ')[1]` on a marker line: the text after the marker, up to the next
      ": " if there is one. The index never fails, since the marker itself ends in ": ". */
  function MarkerCode(line: string): (r: string)
    requires IsMarkerLine(line)
    ensures r == Split(line[|Marker|..], CodeSeparator)[0]
    ensures r <= line[|Marker|..]
    ensures !Contains(r, CodeSeparator)
  {
    MarkerParts();
    assert line == MarkerWord + CodeSeparator + line[|Marker|..];
    SplitAfterFirstSep(MarkerWord, line[|Marker|..], CodeSeparator);
    SplitHead(line[|Marker|..], CodeSeparator);
    Split(line, CodeSeparator)[1]
  }

  /** The verdict a marker line gives: `int(code) == 0`, or the ValueError `int` raises
      when the code is not an integer literal. */
  function MarkerVerdict(line: string): (r: Result<bool, Exception>)
    requires IsMarkerLine(line)
    ensures r.Failure? <==> !IntLiteral(Strip(MarkerCode(line)))
    ensures r.Failure? ==> r.error == ValueError(MarkerCode(line))
    ensures r == Success(true) <==> ParseInt(MarkerCode(line)) == Some(0)
  {
    match ParseInt(MarkerCode(line))
    case None => Failure(ValueError(MarkerCode(line)))
    case Some(n) => Success(n == 0)
  }

  /** Line `k` is the first marker line of the output. */
  predicate FirstMarkerAt(lines: seq<string>, k: int) {
    0 <= k < |lines| && IsMarkerLine(lines[k]) && forall j :: 0 <= j < k ==> !IsMarkerLine(lines[j])
  }

  /** The loop over the output lines: the first marker line decides and ends the loop;
      with no marker line the verdict stays false. */
  function SqlVerdict(lines: seq<string>): (r: Result<bool, Exception>)
    ensures (forall k :: 0 <= k < |lines| ==> !IsMarkerLine(lines[k])) ==> r == Success(false)
    ensures forall k :: FirstMarkerAt(lines, k) ==> r == MarkerVerdict(lines[k])
    ensures r == Success(true) <==> exists k :: FirstMarkerAt(lines, k) && ParseInt(MarkerCode(lines[k])) == Some(0)
  {
    match FirstIndex(lines, IsMarkerLine)
    case None => Success(false)
    case Some(k) =>
      assert FirstMarkerAt(lines, k);
      FirstMarkerUnique(lines, k);
      MarkerVerdict(lines[k])
  }

  /** There is at most one first marker line. */
  lemma FirstMarkerUnique(lines: seq<string>, k: nat)
    requires FirstMarkerAt(lines, k)
    ensures forall m :: FirstMarkerAt(lines, m) ==> m == k
  {
  }

  /** `run_shell_script` after the waiter: a status other than "Success" raises, otherwise
      the verdict is read from the lines of the standard output (missing output reads as
      empty). */
  function RunShellScript(inv: Invocation): (r: Result<bool, Exception>)
    ensures r.Failure? && r.error.CommandFailed? <==> inv.status != "Success"
    ensures r.Failure? && r.error.CommandFailed? ==> r.error.status == inv.status
    ensures r.Failure? ==> r.error.CommandFailed? || r.error.ValueError?
    ensures inv.status == "Success" ==> r == SqlVerdict(SplitLines(inv.stdout.GetOr("")))
  {
    if inv.status != "Success" then Failure(CommandFailed(inv.status))
    else SqlVerdict(SplitLines(inv.stdout.GetOr("")))
  }

  /** Lines before the first marker line do not matter, and neither does anything after
      it: later marker lines are never read. */
  lemma {:induction false} OnlyFirstMarkerCounts(before: seq<string>, line: string, after: seq<string>)
    requires forall j :: 0 <= j < |before| ==> !IsMarkerLine(before[j])
    requires IsMarkerLine(line)
    ensures SqlVerdict(before + [line] + after) == MarkerVerdict(line)
  {
    var lines := before + [line] + after;
    assert lines[|before|] == line;
    assert forall j :: 0 <= j < |before| ==> lines[j] == before[j];
    match FirstIndex(lines, IsMarkerLine)
    case None =>
      assert false;
    case Some(k) =>
      assert k == |before|;
  }

  /** `str(n)` has no ':'. */
  lemma IntToStringNoColon(n: int)
    ensures ':' !in IntToString(n)
  {
    var s := IntToString(n);
    if n < 0 {
      assert s == "-" + NatToString(-n);
      assert forall k :: 1 <= k < |s| ==> s[k] == NatToString(-n)[k - 1];
    }
  }

  /** A marker line carrying `code`, optionally followed by ": " and more text. */
  function MarkerLineOf(code: string, tail: Option<string>): string {
    Marker + code + (if tail.Some? then CodeSeparator + tail.value else "")
  }

  /** The code of "SQL_SUCCESS_MARKER: " followed by `rest` is read from `rest`. */
  lemma MarkerCodeAfter(rest: string)
    ensures IsMarkerLine(Marker + rest)
    ensures MarkerCode(Marker + rest) == Split(rest, CodeSeparator)[0]
  {
    assert (Marker + rest)[|Marker|..] == rest;
  }

  /** A code without ':' is read back whole, whatever follows a further ": ". */
  lemma MarkerCodeOf(code: string, tail: Option<string>)
    requires ':' !in code
    ensures IsMarkerLine(MarkerLineOf(code, tail))
    ensures MarkerCode(MarkerLineOf(code, tail)) == code
  {
    var rest := code + (if tail.Some? then CodeSeparator + tail.value else "");
    assert MarkerLineOf(code, tail) == Marker + rest;
    MarkerCodeAfter(rest);
    SplitFirstPiece(code, tail.GetOr(""), CodeSeparator);
    if tail.Some? {
      assert rest == code + CodeSeparator + tail.value;
    } else {
      assert rest == code;
    }
  }

  /** The line the remote script echoes, "SQL_SUCCESS_MARKER: $SQL_EXIT_CODE", is read
      back as its exit code: the verdict is true exactly for exit code 0. Whatever
      follows a further ": " is ignored. */
  lemma EchoedMarker(n: int, tail: Option<string>)
    ensures IsMarkerLine(MarkerLineOf(IntToString(n), tail))
    ensures MarkerVerdict(MarkerLineOf(IntToString(n), tail)) == Success(n == 0)
  {
    IntToStringNoColon(n);
    MarkerCodeOf(IntToString(n), tail);
    ParseIntRoundTrip(n);
  }

  /** A code that is not an integer literal makes the probe raise instead of answering. */
  lemma NonNumericMarkerRaises(code: string, k: nat)
    requires k < |code| && !IsSpace(code[k]) && !IsSign(code[k]) && !IsDigit(code[k]) && code[k] != ':'
    requires ':' !in code
    ensures MarkerVerdict(Marker + code) == Failure(ValueError(code))
  {
    MarkerCodeOf(code, None);
    assert MarkerLineOf(code, None) == Marker + code;
    ParseIntRejects(code, k);
  }

  /** `get_windows_hostname` after the waiter: the stripped standard output on "Success";
      a reply without standard output raises KeyError; any other status raises. */
  function WindowsHostname(inv: Invocation): (r: Result<string, Exception>)
    ensures r.Failure? <==> inv.status != "Success" || inv.stdout.None?
    ensures r.Failure? && inv.status != "Success" ==> r.error == CommandFailed(inv.status)
    ensures r.Failure? && inv.status == "Success" ==> r.error == KeyError
    ensures r.Success? ==>
      exists i, j :: 0 <= i <= j <= |inv.stdout.value| && r.value == inv.stdout.value[i..j]
        && (forall k :: 0 <= k < i ==> IsSpace(inv.stdout.value[k]))
        && (forall k :: j <= k < |inv.stdout.value| ==> IsSpace(inv.stdout.value[k]))
    ensures r.Success? && |r.value| > 0 ==> !IsSpace(r.value[0]) && !IsSpace(r.value[|r.value| - 1])
  {
    if inv.status != "Success" then Failure(CommandFailed(inv.status))
    else if inv.stdout.None? then Failure(KeyError)
    else Success(Strip(inv.stdout.value))
  }

  /** A host name printed with surrounding whitespace (the line break `hostname` ends
      with) comes back exactly. */
  lemma HostnameRoundTrip(lead: string, name: string, trail: string)
    requires forall k :: 0 <= k < |lead| ==> IsSpace(lead[k])
    requires forall k :: 0 <= k < |trail| ==> IsSpace(trail[k])
    requires |name| > 0 && !IsSpace(name[0]) && !IsSpace(name[|name| - 1])
    ensures WindowsHostname(Invocation("Success", Some(lead + name + trail))) == Success(name)
  {
    var s := lead + name + trail;
    var i0, j0 := |lead|, |lead| + |name|;
    assert s[i0] == name[0] && s[j0 - 1] == name[|name| - 1];
    assert forall k :: 0 <= k < i0 ==> s[k] == lead[k];
    assert forall k :: j0 <= k < |s| ==> s[k] == trail[k - j0];
    StripExact(s, i0, j0);
    assert s[i0..j0] == name;
  }

  /** `get_instance_id_by_name` over the `Reservations` of the reply, each given as the
      instance ids it holds: the first instance of the first reservation that has any. */
  function InstanceIdByName(reservations: seq<seq<string>>): (r: Option<string>)
    ensures r.None? <==> forall k :: 0 <= k < |reservations| ==> |reservations[k]| == 0
    ensures r.Some? ==>
      exists k :: 0 <= k < |reservations| && |reservations[k]| > 0 && r.value == reservations[k][0]
        && forall j :: 0 <= j < k ==> |reservations[j]| == 0
  {
    match FirstIndex(reservations, (rs: seq<string>) => |rs| > 0)
    case None => None
    case Some(k) => Some(reservations[k][0])
  }

  /** The lookup answers the first instance of the reply as a whole: the head of all
      reservations' instances taken in order. */
  lemma {:induction false} InstanceIdIsFirstOverall(reservations: seq<seq<string>>)
    ensures InstanceIdByName(reservations).None? <==> |Flatten(reservations)| == 0
    ensures |Flatten(reservations)| > 0 ==> InstanceIdByName(reservations) == Some(Flatten(reservations)[0])
    decreases |reservations|
  {
    if |reservations| > 0 {
      var rest := reservations[1..];
      InstanceIdIsFirstOverall(rest);
      assert Flatten(reservations) == reservations[0] + Flatten(rest);
      if |reservations[0]| == 0 {
        assert forall k :: 1 <= k < |reservations| ==> reservations[k] == rest[k - 1];
        assert InstanceIdByName(reservations) == InstanceIdByName(rest);
      }
    }
  }
}
