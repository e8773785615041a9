/** `krb_ticket_renew_handler`: the daemon's periodic renewal of the Kerberos tickets
    recorded in the metadata files under its ticket directory. The directory listing,
    the metadata reader, the readiness test and the Kerberos routines are inputs with
    scripted answers; the model records which Kerberos routines are called, in order. */
module Renewal {
  import opened Wrappers
  import opened Strings

  /** The marker a domainless user name carries when its credentials come from the
      secret vault. */
  const SecretUserMarker := "awsdomainlessusersecret"

  /** The part of a file name that marks a metadata file. */
  const MetadataTag := "_metadata"

  /** The value `krb_ticket_renew_handler` returns, whatever happens. */
  const HandlerResult := -1

  /** The number of retries after the first fetch attempt. */
  const NumRetries := 1

  /** One entry of the recursive directory walk. */
  datatype DirEntry = DirEntry(parent: string, filename: string, regular: bool)

  /** The fields of a `krb_ticket_info_t` the handler reads. */
  datatype Ticket = Ticket(domainName: string, serviceAccount: string, krbFilePath: string, domainlessUser: string)

  /** A ticket with the scripted answers of the routines called for it: whether it is
      ready for renewal, and the status of the fetch and of the fallback at each attempt
      number (0 for the first attempt, 1 for the retry). */
  datatype TicketCase = TicketCase(ticket: Ticket, ready: bool, fetch: nat -> int, fallback: nat -> int)

  /** A call to one of the Kerberos routines. */
  datatype Call =
    | Fetch(domain: string, krbCcName: string)      // fetch_gmsa_password_and_create_krb_ticket
    | SecretVault(domain: string, user: string)     // Util::generate_krb_ticket_using_secret_vault
    | MachineKeytab(domain: string)                 // generate_krb_ticket_from_machine_keytab

  /** A walked entry the handler reads as a metadata file. */
  predicate IsMetadataFile(e: DirEntry) {
    e.regular && |e.filename| > 0 && Contains(e.filename, MetadataTag)
  }

  function MetadataPath(e: DirEntry): string {
    e.parent + "/" + e.filename
  }

  /** The metadata files of one walk, in walk order. */
  function MetadataFiles(entries: seq<DirEntry>): (r: seq<string>)
    ensures |r| <= |entries|
    decreases |entries|
  {
    if |entries| == 0 then [] else MetadataOf(entries[0]) + MetadataFiles(entries[1..])
  }

  /** What one walked entry contributes: its path when it is a metadata file. */
  function MetadataOf(e: DirEntry): seq<string> {
    if IsMetadataFile(e) then [MetadataPath(e)] else []
  }

  /** Some entry of the walk is a metadata file at `p`. */
  predicate ListsMetadata(entries: seq<DirEntry>, p: string) {
    exists k :: 0 <= k < |entries| && IsMetadataFile(entries[k]) && p == MetadataPath(entries[k])
  }

  /** The files read are exactly the paths of the walk's metadata entries. */
  lemma {:induction false} MetadataFilesMembers(entries: seq<DirEntry>, p: string)
    ensures p in MetadataFiles(entries) <==> ListsMetadata(entries, p)
    decreases |entries|
  {
    if |entries| > 0 {
      var rest := entries[1..];
      MetadataFilesMembers(rest, p);
      if ListsMetadata(rest, p) {
        var k :| 0 <= k < |rest| && IsMetadataFile(rest[k]) && p == MetadataPath(rest[k]);
        assert entries[k + 1] == rest[k];
      }
      if ListsMetadata(entries, p) {
        var k :| 0 <= k < |entries| && IsMetadataFile(entries[k]) && p == MetadataPath(entries[k]);
        if k > 0 {
          assert rest[k - 1] == entries[k];
        }
      }
    }
  }

  /** The walk is filtered entry by entry: the files of two walks in a row are the files
      of the first followed by those of the second. */
  lemma {:induction false} MetadataFilesAppend(a: seq<DirEntry>, b: seq<DirEntry>)
    ensures MetadataFiles(a + b) == MetadataFiles(a) + MetadataFiles(b)
    decreases |a|
  {
    if |a| == 0 {
      assert a + b == b;
    } else {
      var h := MetadataOf(a[0]);
      assert (a + b)[0] == a[0] && (a + b)[1..] == a[1..] + b;
      assert MetadataFiles(a + b) == h + MetadataFiles(a[1..] + b);
      MetadataFilesAppend(a[1..], b);
      assert MetadataFiles(a + b) == h + (MetadataFiles(a[1..]) + MetadataFiles(b));
    }
  }

  /** The selection test: a ticket is renewed when its user is not a domainless user or
      is one whose credentials come from the secret vault, and it is ready for renewal. */
  predicate Eligible(c: TicketCase) {
    (|c.ticket.domainlessUser| == 0 || Contains(c.ticket.domainlessUser, SecretUserMarker)) && c.ready
  }

  /** The position `find(":")` reports, after the handler stores it in an `int`: the
      `npos` of a missing colon becomes -1. */
  function ColonPosition(user: string): (pos: int)
    ensures pos == -1 <==> ':' !in user
    ensures pos >= 0 ==> pos < |user| && user[pos] == ':' && ':' !in user[..pos]
  {
    ContainsChar(user, ':');
    match Find(user, ":")
    case None => -1
    case Some(k) =>
      FindCharAt(user, ':', k);
      k
  }

  /** `domainless_user.substr(pos + 1)`: the user name after the first ':', or the whole
      string when there is no ':' (the position -1 plus one is 0). */
  function DomainlessUserName(user: string): (r: string)
    ensures ':' !in user ==> r == user
    ensures ':' in user ==> exists k :: 0 <= k < |user| && user[k] == ':' && ':' !in user[..k] && r == user[k + 1..]
  {
    var pos := ColonPosition(user);
    user[pos + 1..]
  }

  /** A user written "<prefix>:<name>" with no ':' in the prefix yields the name, which
      may itself hold colons. */
  lemma DomainlessUserNameOf(prefix: string, name: string)
    requires ':' !in prefix
    ensures DomainlessUserName(prefix + ":" + name) == name
  {
    var user := prefix + ":" + name;
    var pos := ColonPosition(user);
    assert user[|prefix|] == ':';
    assert forall j :: 0 <= j < pos ==> user[j] == user[..pos][j];
    assert forall j :: 0 <= j < |prefix| ==> user[j] == prefix[j];
    assert pos == |prefix|;
    assert user[pos + 1..] == name;
  }

  /** The fallback tried after a failed fetch: the secret vault with the user name when
      the domainless user carries the marker, the machine keytab otherwise. */
  function Fallback(t: Ticket): (r: Call)
    ensures Contains(t.domainlessUser, SecretUserMarker) <==> r.SecretVault?
    ensures r.domain == t.domainName
    ensures r.SecretVault? ==> r.user == DomainlessUserName(t.domainlessUser)
  {
    if Contains(t.domainlessUser, SecretUserMarker) then SecretVault(t.domainName, DomainlessUserName(t.domainlessUser))
    else MachineKeytab(t.domainName)
  }

  /** The attempt loop from attempt `i` on: fetch; after a failed fetch try the fallback
      and stop if it returned a non-negative status. A successful fetch does not stop
      the loop. */
  function Attempts(c: TicketCase, i: nat): (r: seq<Call>)
    requires i <= NumRetries + 1
    ensures i <= NumRetries ==> |r| > 0 && r[0] == Fetch(c.ticket.domainName, c.ticket.krbFilePath)
    ensures forall k :: 0 <= k < |r| ==>
      r[k] == Fetch(c.ticket.domainName, c.ticket.krbFilePath) || r[k] == Fallback(c.ticket)
    decreases NumRetries + 1 - i
  {
    if i > NumRetries then []
    else
      var fetch := Fetch(c.ticket.domainName, c.ticket.krbFilePath);
      if c.fetch(i) == 0 then [fetch] + Attempts(c, i + 1)
      else if c.fallback(i) >= 0 then [fetch, Fallback(c.ticket)]
      else [fetch, Fallback(c.ticket)] + Attempts(c, i + 1)
  }

  function FetchCount(calls: seq<Call>): (n: nat)
    ensures n <= |calls|
    decreases |calls|
  {
    if |calls| == 0 then 0 else (if calls[0].Fetch? then 1 else 0) + FetchCount(calls[1..])
  }

  /** The calls the handler makes for one ticket. */
  function RenewTicket(c: TicketCase): (r: seq<Call>)
    ensures !Eligible(c) <==> r == []
    ensures Eligible(c) ==> r[0] == Fetch(c.ticket.domainName, c.ticket.krbFilePath)
    ensures forall k :: 0 <= k < |r| ==>
      r[k] == Fetch(c.ticket.domainName, c.ticket.krbFilePath) || r[k] == Fallback(c.ticket)
  {
    if Eligible(c) then Attempts(c, 0) else []
  }

  /** At most two fetch attempts are made: the second one happens exactly when the first
      fetch succeeded or its fallback failed. A first fetch that succeeds is repeated. */
  lemma RenewTicketAttempts(c: TicketCase)
    requires Eligible(c)
    ensures FetchCount(RenewTicket(c)) <= NumRetries + 1
    ensures FetchCount(RenewTicket(c)) == 2 <==> c.fetch(0) == 0 || c.fallback(0) < 0
    ensures c.fetch(0) == 0 && c.fetch(1) == 0 ==> RenewTicket(c) == [Fetch(c.ticket.domainName, c.ticket.krbFilePath),
                                                                    Fetch(c.ticket.domainName, c.ticket.krbFilePath)]
  {
    var f := Fetch(c.ticket.domainName, c.ticket.krbFilePath);
    var b := Fallback(c.ticket);
    var second := Attempts(c, 1);
    assert Attempts(c, 2) == [];
    assert FetchCount(second) == 1 by {
      if c.fetch(1) == 0 {
        assert second == [f];
      } else {
        assert second == [f, b];
        assert FetchCount([b]) == 0;
      }
    }
    if c.fetch(0) == 0 {
      assert RenewTicket(c) == [f] + second;
    } else if c.fallback(0) >= 0 {
      assert RenewTicket(c) == [f, b];
      assert FetchCount([b]) == 0;
    } else {
      assert RenewTicket(c) == [f, b] + second;
      assert ([f, b] + second)[1..] == [b] + second;
      assert ([b] + second)[1..] == second;
    }
  }

  /** Every fallback call follows a failed fetch of the same attempt, and the secret
      vault is only used for a marked domainless user. */
  lemma FallbackOnlyAfterFailure(c: TicketCase)
    requires Eligible(c)
    ensures forall k :: 0 <= k < |RenewTicket(c)| && !RenewTicket(c)[k].Fetch? ==>
      k > 0 && RenewTicket(c)[k - 1].Fetch? && (c.fetch(0) != 0 || c.fetch(1) != 0)
    ensures (exists k :: 0 <= k < |RenewTicket(c)| && RenewTicket(c)[k].SecretVault?) ==>
      Contains(c.ticket.domainlessUser, SecretUserMarker)
  {
    var f := Fetch(c.ticket.domainName, c.ticket.krbFilePath);
    var b := Fallback(c.ticket);
    var second := Attempts(c, 1);
    assert Attempts(c, 2) == [];
    assert second == [f] || (second == [f, b] && c.fetch(1) != 0);
    assert RenewTicket(c) == [f] + second || (RenewTicket(c) == [f, b] && c.fetch(0) != 0)
      || (RenewTicket(c) == [f, b] + second && c.fetch(0) != 0);
  }

  /** The calls for the tickets of one metadata file, ticket by ticket. */
  function FileCalls(cases: seq<TicketCase>): (r: seq<Call>)
    decreases |cases|
  {
    if |cases| == 0 then [] else RenewTicket(cases[0]) + FileCalls(cases[1..])
  }

  /** Tickets that are not selected cost no calls. */
  lemma {:induction false} FileCallsSkipsIneligible(cases: seq<TicketCase>)
    requires forall k :: 0 <= k < |cases| ==> !Eligible(cases[k])
    ensures FileCalls(cases) == []
    decreases |cases|
  {
    if |cases| > 0 {
      FileCallsSkipsIneligible(cases[1..]);
    }
  }

  /** One pass of the outer loop: the walked entries, and what `read_meta_data_json`
      answers for each metadata file (None when it throws). */
  datatype Round = Round(entries: seq<DirEntry>, read: string -> Option<seq<TicketCase>>)

  /** The calls of one pass over `files`, and whether an exception ended it. */
  function PassCalls(files: seq<string>, read: string -> Option<seq<TicketCase>>): (r: (seq<Call>, bool))
    ensures !r.1 <==> forall k :: 0 <= k < |files| ==> read(files[k]).Some?
    decreases |files|
  {
    if |files| == 0 then ([], false)
    else
      match read(files[0])
      case None => ([], true)
      case Some(cases) =>
        var rest := PassCalls(files[1..], read);
        assert forall k :: 1 <= k < |files| ==> files[k] == files[1..][k - 1];
        (FileCalls(cases) + rest.0, rest.1)
  }

  /** The calls of the pass of a round, and whether it threw. */
  function RoundCalls(round: Round): (seq<Call>, bool) {
    PassCalls(MetadataFiles(round.entries), round.read)
  }

  /** The loop over the rounds it reaches, in order, `pass` giving each round's calls
      and whether it threw: an exception ends the loop, and nothing else does. */
  function RunRounds<R>(rounds: seq<R>, pass: R -> (seq<Call>, bool)): seq<Call>
    decreases |rounds|
  {
    if |rounds| == 0 then []
    else
      var (calls, threw) := pass(rounds[0]);
      if threw then calls else calls + RunRounds(rounds[1..], pass)
  }

  /** The handler's loop over its rounds. */
  function Rounds(rounds: seq<Round>): seq<Call> {
    RunRounds(rounds, RoundCalls)
  }

  /** `krb_ticket_renew_handler` as written: its return value and the Kerberos calls it
      makes, for a ticket directory and the rounds its loop reaches. `signalAt` is the
      round before whose check the shutdown signal sets the daemon's flag (None: not
      within these rounds). The handler receives the daemon by value, so its loop tests
      a copy of the flag taken when the renewal thread started, while the signal
      catcher sets only the daemon's own flag; the copy stays clear, and `signalAt`
      has no effect. Only an exception ends the loop. */
  function RenewHandler(krbFilesDir: string, rounds: seq<Round>, signalAt: Option<nat>): (r: (int, seq<Call>))
    ensures r.0 == HandlerResult
    ensures |krbFilesDir| == 0 ==> r.1 == []
  {
    if |krbFilesDir| == 0 then (HandlerResult, []) else (HandlerResult, Rounds(rounds))
  }

  /** The handler as its loop condition evidently intends: the loop sees the shutdown
      signal and reaches no round after it. */
  function RenewHandlerIntended(krbFilesDir: string, rounds: seq<Round>, signalAt: Option<nat>)
    : (r: (int, seq<Call>))
    ensures r.0 == HandlerResult
    ensures |krbFilesDir| == 0 ==> r.1 == []
    ensures signalAt.None? ==> r == RenewHandler(krbFilesDir, rounds, None)
  {
    var reached := if signalAt.Some? && signalAt.value < |rounds| then rounds[..signalAt.value] else rounds;
    if |krbFilesDir| == 0 then (HandlerResult, []) else (HandlerResult, Rounds(reached))
  }

  /** As written, rounds after the shutdown signal still run: with a signal right after
      the rounds `before`, the calls of the rounds `after` are made all the same. */
  lemma SignalIgnoredAsWritten(krbFilesDir: string, before: seq<Round>, after: seq<Round>)
    requires |krbFilesDir| > 0
    requires forall k :: 0 <= k < |before| ==> !RoundCalls(before[k]).1
    ensures RenewHandler(krbFilesDir, before + after, Some(|before|)).1 == Rounds(before) + Rounds(after)
  {
    RoundsAppend(before, after);
  }

  /** As intended, the rounds after the signal make no call: the handler behaves as if
      the loop had reached only the rounds before it. */
  lemma {:induction false} ShutdownEndsLoop(krbFilesDir: string, before: seq<Round>, after: seq<Round>)
    ensures RenewHandlerIntended(krbFilesDir, before + after, Some(|before|))
         == RenewHandler(krbFilesDir, before, None)
  {
    if |after| > 0 {
      assert (before + after)[..|before|] == before;
    } else {
      assert before + after == before;
    }
  }

  /** The two differ on any run whose rounds after the signal make a call: a renewal
      round with an eligible ticket, reached after a shutdown request. */
  lemma {:induction false} SignalDiscrepancy(krbFilesDir: string, before: seq<Round>, after: seq<Round>)
    requires |krbFilesDir| > 0
    requires forall k :: 0 <= k < |before| ==> !RoundCalls(before[k]).1
    requires Rounds(after) != []
    ensures RenewHandler(krbFilesDir, before + after, Some(|before|))
         != RenewHandlerIntended(krbFilesDir, before + after, Some(|before|))
  {
    SignalIgnoredAsWritten(krbFilesDir, before, after);
    ShutdownEndsLoop(krbFilesDir, before, after);
    assert |Rounds(before) + Rounds(after)| > |Rounds(before)|;
  }

  /** An exception in a round ends the loop: the rounds after it never run. */
  lemma ExceptionEndsLoop(rounds: seq<Round>, k: nat)
    requires k < |rounds| && RoundCalls(rounds[k]).1
    ensures Rounds(rounds) == Rounds(rounds[..k + 1])
  {
    RunRoundsStops(rounds, RoundCalls, k);
  }

  /** Without exceptions every round runs, one after the other. */
  lemma RoundsAppend(a: seq<Round>, b: seq<Round>)
    requires forall k :: 0 <= k < |a| ==> !RoundCalls(a[k]).1
    ensures Rounds(a + b) == Rounds(a) + Rounds(b)
  {
    RunRoundsAppend(a, b, RoundCalls);
  }

  lemma {:induction false} RunRoundsStops<R>(rounds: seq<R>, pass: R -> (seq<Call>, bool), k: nat)
    requires k < |rounds| && pass(rounds[k]).1
    ensures RunRounds(rounds, pass) == RunRounds(rounds[..k + 1], pass)
    decreases k
  {
    if k > 0 {
      RunRoundsStops(rounds[1..], pass, k - 1);
      assert rounds[1..][..k] == rounds[..k + 1][1..];
    } else {
      assert rounds[..1][1..] == [];
    }
  }

  lemma {:induction false} RunRoundsAppend<R>(a: seq<R>, b: seq<R>, pass: R -> (seq<Call>, bool))
    requires forall k :: 0 <= k < |a| ==> !pass(a[k]).1
    ensures RunRounds(a + b, pass) == RunRounds(a, pass) + RunRounds(b, pass)
    decreases |a|
  {
    if |a| == 0 {
      assert a + b == b;
    } else {
      assert (a + b)[0] == a[0] && (a + b)[1..] == a[1..] + b;
      assert forall k :: 0 <= k < |a[1..]| ==> a[1..][k] == a[k + 1];
      RunRoundsAppend(a[1..], b, pass);
    }
  }
}
