/** Tool-chain detection: a per-session history capped at fifty calls, of which the last five are
    searched for dangerous combinations. The per-call checks before it are inputs. */
module ToolGuard {
  import opened Wrappers
  import opened Sequences

  const HISTORY_CAP := 50
  const CHAIN_WINDOW := 5
  const CHAIN_SPAN := 60.0

  datatype GuardResult = GuardResult(
    allowed: bool, severity: string, reason: string, requiresApproval: bool, blockedChain: bool)

  /** `rejection` is what the policy, file, command and network checks say when one of them objects;
      `sudo` is whether the command starts with sudo. */
  datatype ToolCall = ToolCall(
    toolName: string, timestamp: real, sessionId: string, rejection: Option<GuardResult>, sudo: bool)

  datatype Combo = Combo(name: string, tools: (string, string), context: string, severity: string)

  const DANGEROUS_COMBOS: seq<Combo> := [
    Combo("data_exfil", ("read_file", "web_fetch"),
          "Reading files and making external requests \U{2014} potential exfiltration", "critical"),
    Combo("data_exfil_search", ("read_file", "web_search"),
          "Reading files and searching web \U{2014} potential exfiltration", "high"),
    Combo("shell_escalation", ("read_file", "execute_code"),
          "Reading auth files then executing code \U{2014} potential escalation", "critical"),
    Combo("config_tamper_exec", ("write_file", "execute_code"),
          "Writing files then executing code \U{2014} potential persistence", "high")]

  predicate InCombo(c: ToolCall, combo: Combo) {
    c.toolName == combo.tools.0 || c.toolName == combo.tools.1
  }

  function ComboCalls(calls: seq<ToolCall>, combo: Combo): (r: seq<ToolCall>)
    ensures r != [] <==> exists i :: 0 <= i < |calls| && InCombo(calls[i], combo)
  {
    if calls == [] then []
    else
      var rest := ComboCalls(calls[1..], combo);
      assert forall i | 0 < i < |calls| :: calls[i] == calls[1..][i - 1];
      if InCombo(calls[0], combo) then [calls[0]] + rest else rest
  }

  predicate Used(calls: seq<ToolCall>, tool: string) {
    exists i :: 0 <= i < |calls| && calls[i].toolName == tool
  }

  /** What the check computes for one combination on the recent calls. */
  predicate Matches(recent: seq<ToolCall>, combo: Combo) {
    Used(recent, combo.tools.0) && Used(recent, combo.tools.1) &&
    var hits := ComboCalls(recent, combo);
    hits != [] && hits[|hits| - 1].timestamp - hits[0].timestamp < CHAIN_SPAN
  }

  function FirstMatch(recent: seq<ToolCall>, combos: seq<Combo>): Option<Combo> {
    if combos == [] then None
    else if Matches(recent, combos[0]) then Some(combos[0])
    else FirstMatch(recent, combos[1..])
  }

  function Reason(combo: Combo): string {
    "Dangerous tool chain detected: " + combo.name + " \U{2014} " + combo.context
  }

  function CheckChain(history: seq<ToolCall>): GuardResult {
    if |history| < 2 then GuardResult(true, "info", "", false, false)
    else
      match FirstMatch(LastOf(history, CHAIN_WINDOW), DANGEROUS_COMBOS)
      case None => GuardResult(true, "info", "", false, false)
      case Some(combo) => GuardResult(false, combo.severity, Reason(combo), false, true)
  }

  function Capped(history: seq<ToolCall>): seq<ToolCall> {
    LastOf(history, HISTORY_CAP)
  }

  /** The verdict on a call and the session history it leaves. */
  function CheckCall(history: seq<ToolCall>, call: ToolCall): (GuardResult, seq<ToolCall>) {
    if call.rejection.Some? then (call.rejection.value, history)
    else
      var recorded := history + [call];
      var chain := CheckChain(recorded);
      if !chain.allowed then (chain, recorded)
      else (GuardResult(true, "info", "OK", call.sudo && call.toolName in {"terminal", "execute_code"}, false), recorded)
  }

  // ---- the guard -------------------------------------------------------------------------------

  class Guard {
    var history: map<string, seq<ToolCall>>

    constructor ()
      ensures history == map[]
    {
      history := map[];
    }

    method RecordCall(call: ToolCall)
      modifies this
      ensures history == old(history)[call.sessionId := Capped(SessionOf(old(history), call.sessionId) + [call])]
    {
      if call.sessionId !in history {
        history := history[call.sessionId := []];
      }
      history := history[call.sessionId := history[call.sessionId] + [call]];
      if |history[call.sessionId]| > HISTORY_CAP {
        var h := history[call.sessionId];
        history := history[call.sessionId := h[|h| - HISTORY_CAP..]];
      }
    }

    method CheckToolCall(call: ToolCall) returns (r: GuardResult)
      modifies this
      ensures (history, r) == Guarded(old(history), call)
    {
      if call.rejection.Some? {
        return call.rejection.value;
      }
      var requiresApproval := call.sudo && call.toolName in {"terminal", "execute_code"};
      RecordCall(call);
      var chain := CheckChain(SessionOf(history, call.sessionId));
      ChainSeesLastFive(SessionOf(old(history), call.sessionId) + [call]);
      if !chain.allowed {
        return chain;
      }
      r := GuardResult(true, "info", "OK", requiresApproval, false);
    }
  }

  function SessionOf(history: map<string, seq<ToolCall>>, session: string): seq<ToolCall> {
    if session in history then history[session] else []
  }

  function Guarded(history: map<string, seq<ToolCall>>, call: ToolCall): (map<string, seq<ToolCall>>, GuardResult) {
    var (r, recorded) := CheckCall(SessionOf(history, call.sessionId), call);
    (if call.rejection.Some? then history else history[call.sessionId := Capped(recorded)], r)
  }

  // ---- the cap never shows ---------------------------------------------------------------------

  lemma ChainSeesLastFive(history: seq<ToolCall>)
    ensures CheckChain(Capped(history)) == CheckChain(history)
  {
    LastOfLast(history, HISTORY_CAP, CHAIN_WINDOW);
  }

  /** Every call a session ever recorded: all that passed the per-call checks, chain-blocked or not. */
  function Log(calls: seq<ToolCall>, session: string): seq<ToolCall> {
    if calls == [] then []
    else
      var earlier, c := Log(calls[..|calls| - 1], session), calls[|calls| - 1];
      if c.sessionId == session && c.rejection.None? then earlier + [c] else earlier
  }

  function Run(calls: seq<ToolCall>): map<string, seq<ToolCall>> {
    if calls == [] then map[] else Guarded(Run(calls[..|calls| - 1]), calls[|calls| - 1]).0
  }

  lemma {:induction false} HistoryIsRecentLog(calls: seq<ToolCall>, session: string)
    ensures SessionOf(Run(calls), session) == Capped(Log(calls, session))
  {
    if calls != [] {
      var init, c := calls[..|calls| - 1], calls[|calls| - 1];
      HistoryIsRecentLog(init, session);
      HistoryIsRecentLog(init, c.sessionId);
      LastOfAppend(Log(init, session), c, HISTORY_CAP);
    }
  }

  /** In any interleaving of sessions, the verdict on a call is the verdict of its own session's full
      log: neither the cap nor any other session has an influence. */
  lemma VerdictIsUnbounded(calls: seq<ToolCall>, call: ToolCall)
    ensures Guarded(Run(calls), call).1 == CheckCall(Log(calls, call.sessionId), call).0
  {
    var log := Log(calls, call.sessionId);
    HistoryIsRecentLog(calls, call.sessionId);
    ChainSeesLastFive(log + [call]);
    ChainSeesLastFive(Capped(log) + [call]);
    LastOfAppend(log, call, HISTORY_CAP);
  }

  // ---- what is blocked -------------------------------------------------------------------------

  /** Both tools occur, and from the first to the last call of either less than a minute passed. */
  ghost predicate Dangerous(recent: seq<ToolCall>, combo: Combo) {
    Used(recent, combo.tools.0) && Used(recent, combo.tools.1) &&
    forall i, j | IsFirst(recent, combo, i) && IsLast(recent, combo, j) ::
      recent[j].timestamp - recent[i].timestamp < CHAIN_SPAN
  }

  ghost predicate IsFirst(recent: seq<ToolCall>, combo: Combo, i: int) {
    0 <= i < |recent| && InCombo(recent[i], combo) && forall k | 0 <= k < i :: !InCombo(recent[k], combo)
  }

  ghost predicate IsLast(recent: seq<ToolCall>, combo: Combo, j: int) {
    0 <= j < |recent| && InCombo(recent[j], combo) && forall k | j < k < |recent| :: !InCombo(recent[k], combo)
  }

  lemma {:induction false} ComboCallsFirst(calls: seq<ToolCall>, combo: Combo)
    requires ComboCalls(calls, combo) != []
    ensures exists i :: IsFirst(calls, combo, i) && calls[i] == ComboCalls(calls, combo)[0]
  {
    if InCombo(calls[0], combo) {
      assert IsFirst(calls, combo, 0);
    } else {
      ComboCallsFirst(calls[1..], combo);
      var i :| IsFirst(calls[1..], combo, i) && calls[1..][i] == ComboCalls(calls, combo)[0];
      assert forall k | 0 < k <= i + 1 :: calls[k] == calls[1..][k - 1];
      assert IsFirst(calls, combo, i + 1);
    }
  }

  function Final<T>(s: seq<T>): T
    requires s != []
  {
    s[|s| - 1]
  }

  lemma LastShifts(calls: seq<ToolCall>, combo: Combo, j: int)
    requires calls != [] && IsLast(calls[1..], combo, j)
    ensures IsLast(calls, combo, j + 1) && calls[j + 1] == calls[1..][j]
  {
    forall k | j + 1 < k < |calls| ensures !InCombo(calls[k], combo) { assert calls[k] == calls[1..][k - 1]; }
  }

  lemma LastAlone(calls: seq<ToolCall>, combo: Combo)
    requires ComboCalls(calls, combo) != [] && ComboCalls(calls[1..], combo) == []
    ensures IsLast(calls, combo, 0) && calls[0] == Final(ComboCalls(calls, combo))
  {
    forall k | 0 < k < |calls| ensures !InCombo(calls[k], combo) { assert calls[k] == calls[1..][k - 1]; }
  }

  lemma {:induction false} ComboCallsLast(calls: seq<ToolCall>, combo: Combo)
    requires ComboCalls(calls, combo) != []
    ensures exists j :: IsLast(calls, combo, j) && calls[j] == Final(ComboCalls(calls, combo))
  {
    var rest := ComboCalls(calls[1..], combo);
    if rest == [] {
      LastAlone(calls, combo);
    } else {
      ComboCallsLast(calls[1..], combo);
      var j :| IsLast(calls[1..], combo, j) && calls[1..][j] == Final(rest);
      LastShifts(calls, combo, j);
      assert Final(ComboCalls(calls, combo)) == Final(rest);
    }
  }

  lemma MatchesIsDangerous(recent: seq<ToolCall>, combo: Combo)
    ensures Matches(recent, combo) <==> Dangerous(recent, combo)
  {
    var hits := ComboCalls(recent, combo);
    if Used(recent, combo.tools.0) {
      var k :| 0 <= k < |recent| && recent[k].toolName == combo.tools.0;
      assert InCombo(recent[k], combo);
      ComboCallsFirst(recent, combo);
      ComboCallsLast(recent, combo);
      var i :| IsFirst(recent, combo, i) && recent[i] == hits[0];
      var j :| IsLast(recent, combo, j) && recent[j] == Final(hits);
      forall i' | IsFirst(recent, combo, i') ensures i' == i {}
      forall j' | IsLast(recent, combo, j') ensures j' == j {}
    }
  }

  ghost predicate FirstDangerous(recent: seq<ToolCall>, combos: seq<Combo>, k: int) {
    0 <= k < |combos| && Dangerous(recent, combos[k]) && forall i | 0 <= i < k :: !Dangerous(recent, combos[i])
  }

  lemma {:induction false} FirstMatchIsFirst(recent: seq<ToolCall>, combos: seq<Combo>)
    ensures FirstMatch(recent, combos).None? <==> forall c | c in combos :: !Dangerous(recent, c)
    ensures FirstMatch(recent, combos).Some? ==>
              exists k :: FirstDangerous(recent, combos, k) && FirstMatch(recent, combos) == Some(combos[k])
  {
    forall c | c in combos ensures Matches(recent, c) <==> Dangerous(recent, c) { MatchesIsDangerous(recent, c); }
    if combos != [] && !Matches(recent, combos[0]) {
      FirstMatchIsFirst(recent, combos[1..]);
      if FirstMatch(recent, combos[1..]).Some? {
        var k :| FirstDangerous(recent, combos[1..], k) && FirstMatch(recent, combos[1..]) == Some(combos[1..][k]);
        forall i | 0 <= i < k + 1 ensures !Dangerous(recent, combos[i]) {
          if i > 0 { assert combos[i] == combos[1..][i - 1]; }
        }
        assert FirstDangerous(recent, combos, k + 1);
      }
    } else if combos != [] {
      assert FirstDangerous(recent, combos, 0);
    }
  }

  /** A call that passes the per-call checks is blocked exactly when, with it recorded, some listed
      combination is dangerous among the session's last five calls; the first such one in the list gives
      the severity and the reason. */
  lemma BlockedExactly(log: seq<ToolCall>, call: ToolCall)
    requires call.rejection.None?
    ensures var recent, r := LastOf(log + [call], CHAIN_WINDOW), CheckCall(log, call).0;
            (r.allowed <==> forall c | c in DANGEROUS_COMBOS :: !Dangerous(recent, c)) &&
            (!r.allowed ==> exists k :: FirstDangerous(recent, DANGEROUS_COMBOS, k) &&
                              r == GuardResult(false, DANGEROUS_COMBOS[k].severity, Reason(DANGEROUS_COMBOS[k]), false, true))
  {
    var recorded := log + [call];
    var recent := LastOf(recorded, CHAIN_WINDOW);
    FirstMatchIsFirst(recent, DANGEROUS_COMBOS);
    if |recorded| < 2 {
      ToolsDiffer();
      forall c | c in DANGEROUS_COMBOS ensures !Dangerous(recent, c) { OneCallIsSafe(recent, c); }
    }
  }

  /** One call can never hold both tools of a combination. */
  lemma OneCallIsSafe(recent: seq<ToolCall>, c: Combo)
    requires |recent| < 2 && c.tools.0 != c.tools.1
    ensures !Dangerous(recent, c)
  {
  }

  lemma ToolsDiffer()
    ensures forall c | c in DANGEROUS_COMBOS :: c.tools.0 != c.tools.1
  {
    assert "read_file"[0] == 'r' && "write_file"[0] == 'w' && "web_fetch"[0] == 'w' && "web_search"[0] == 'w' && "execute_code"[0] == 'e';
  }

  /** Whatever the interleaving so far, an allowed call never leaves its session with a dangerous
      combination among its last five recorded calls. */
  lemma AllowedLeavesNoChain(calls: seq<ToolCall>, call: ToolCall)
    requires call.rejection.None? && Guarded(Run(calls), call).1.allowed
    ensures forall c | c in DANGEROUS_COMBOS ::
              !Dangerous(LastOf(SessionOf(Run(calls + [call]), call.sessionId), CHAIN_WINDOW), c)
  {
    var log := Log(calls, call.sessionId);
    assert (calls + [call])[..|calls|] == calls;
    VerdictIsUnbounded(calls, call);
    BlockedExactly(log, call);
    HistoryIsRecentLog(calls + [call], call.sessionId);
    LastOfLast(log + [call], HISTORY_CAP, CHAIN_WINDOW);
  }
}
