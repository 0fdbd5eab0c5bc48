/** A complete exchange as the device behind the daemon sees it. */
module EndToEnd {
  import opened Words
  import opened Protocol
  import opened Mailbox
  import opened Device
  import opened Exchange
  import opened Wire
  import opened Relay

  function OpValues(ops: seq<Op>): (vs: seq<u32>)
    ensures |vs| == |ops|
  {
    seq(|ops|, i requires 0 <= i < |ops| => ops[i].value)
  }

  lemma DirectValues(table: seq<Entry>, ops: seq<Op>)
    ensures OpValues(DirectAnswers(table, ops)) == Results(table, FRESH, Accesses(None, TranslateAll(ops)))
  {
    hide DirectAnswer, Results, Accesses;
    if ops == [] {
      assert TranslateAll(ops) == [];
      DirectValuesOfNone(table);
    } else {
      DirectAnswerValue(table, ops, 0);
      forall k | 0 <= k < |ops|
        ensures OpValues(DirectAnswers(table, ops))[k] == Results(table, FRESH, Accesses(None, TranslateAll(ops)))[k]
      {
        DirectAnswerValue(table, ops, k);
      }
    }
  }

  lemma DirectValuesOfNone(table: seq<Entry>)
    ensures Results(table, FRESH, Accesses(None, [])) == []
  {
  }

  /** The op that performs an access on a device with the given base. */
  function OpFor(base: u32, a: Access): (op: Op)
    requires !a.Skip?
  {
    var (kind, val) := if a.Rd? then (AVERY_OP_READ, 0) else (AVERY_OP_WRITE, a.val);
    Op(kind, (base + a.reg) % 0x1_0000_0000, val, 0)
  }

  function OpsFor(base: u32, accesses: seq<Access>): (ops: seq<Op>)
    requires forall a :: a in accesses ==> !a.Skip?
    ensures |ops| == |accesses|
  {
    seq(|accesses|, i requires 0 <= i < |accesses| => OpFor(base, accesses[i]))
  }

  lemma OpsIssue(base: u32, accesses: seq<Access>)
    requires forall a :: a in accesses ==> !a.Skip?
    ensures TranslateAll(OpsFor(base, accesses)) == IssueAll(base, accesses)
  {
  }

  /** A first STATUS read, which also fixes the base, and then a conversation. */
  function Session(req: seq<u32>, n: nat): (r: seq<Access>)
    ensures forall a :: a in r ==> !a.Skip?
  {
    RoundsNeverSkip(n);
    [Rd(DOE_REG_STATUS)] + Conversation(req, n)
  }

  /** Whatever the base, the ops of a session perform it on a device that has yet to learn the base. */
  lemma SessionDecodes(base: u32, req: seq<u32>, n: nat)
    ensures Accesses(None, TranslateAll(OpsFor(base, Session(req, n)))) == Session(req, n)
  {
    RoundsNeverSkip(n);
    OpsIssue(base, Session(req, n));
    IssueAllFromStart(base, Conversation(req, n));
  }

  /** What a session returns for an answerable request: the response dwords in order, once each, with
      STATUS at READY before each, and an empty mailbox at the end. */
  function SessionValues(req: seq<u32>, rsp: seq<u32>): (vs: seq<u32>)
  {
    [0] + (Blanks(|req| + 2) + RoundResults(rsp) + [0, OVERRUN])
  }

  lemma SessionResults(table: seq<Entry>, req: seq<u32>, rsp: seq<u32>)
    requires Answer(table, req) == Some(rsp)
    ensures Results(table, FRESH, Session(req, rsp[1])) == SessionValues(req, rsp)
  {
    hide Conversation, RoundResults;
    var first := [Rd(DOE_REG_STATUS)];
    RunAppendAccesses(table, FRESH, first, Conversation(req, rsp[1]));
    assert After(table, FRESH, first) == FRESH && Results(table, FRESH, first) == [0];
    ConversationResults(table, FRESH, req, rsp);
  }

  /** A session sent as ops through the three processes, for any base and any answerable request. Under
      every schedule what has come back so far is the beginning of the session's values, and a schedule
      that cannot go on has brought back all of them. */
  lemma ExchangeOverRelay(table: seq<Entry>, base: u32, req: seq<u32>, rsp: seq<u32>, steps: seq<Step>)
    requires Answer(table, req) == Some(rsp)
    requires Play(table, OpsFor(base, Session(req, rsp[1])), steps).Some?
    ensures
      var r := Play(table, OpsFor(base, Session(req, rsp[1])), steps).value;
      && OpValues(r.done) <= SessionValues(req, rsp)
      && ((forall step :: Exec(table, r, step).None?) ==> OpValues(r.done) == SessionValues(req, rsp))
  {
    hide Session, SessionValues, OpsFor, Answer, Play, Exec, DirectAnswers;
    var ops := OpsFor(base, Session(req, rsp[1]));
    var r := Play(table, ops, steps).value;
    RelayRefinesDirect(table, ops, steps);
    DirectValues(table, ops);
    SessionDecodes(base, req, rsp[1]);
    SessionResults(table, req, rsp);
    if forall step :: Exec(table, r, step).None? {
      RelayCompletes(table, ops, steps);
    }
  }
}
