/** Exit-node forwarding on Linux, for IPv4: a transaction over a forwarding flag and a rule list
    that other programs share, with calls that may fail. */
module Forwarding {
  import opened Common

  datatype Rule = Rule(table: Option<string>, args: seq<string>)

  datatype Host = Host(forwarding: bool, rules: multiset<Rule>)

  /** What the daemon remembers of its own set-up. */
  datatype Runtime = Runtime(outbound: Option<string>, source: Option<string>, wasEnabled: Option<bool>)

  const NOTHING: Runtime := Runtime(None, None, None)

  datatype State = State(host: Host, runtime: Runtime)

  function ForwardIn(iface: string): Rule
  {
    Rule(None, ["FORWARD", "-i", iface, "-m", "comment", "--comment", "nvpn-exit-forward-in", "-j", "ACCEPT"])
  }

  function ForwardOut(iface: string): Rule
  {
    Rule(None, ["FORWARD", "-o", iface, "-m", "conntrack", "--ctstate", "RELATED,ESTABLISHED",
                "-m", "comment", "--comment", "nvpn-exit-forward-out", "-j", "ACCEPT"])
  }

  function Masquerade(outbound: string, source: string): Rule
  {
    Rule(Some("nat"), ["POSTROUTING", "-o", outbound, "-s", source, "-m", "comment", "--comment", "nvpn-exit-masq", "-j", "MASQUERADE"])
  }

  function OurRules(iface: string, outbound: string, source: string): multiset<Rule>
  {
    multiset{ForwardIn(iface), ForwardOut(iface), Masquerade(outbound, source)}
  }

  ghost predicate Ours(iface: string, r: Rule)
  {
    r == ForwardIn(iface) || r == ForwardOut(iface) || exists o, s :: r == Masquerade(o, s)
  }

  /** Whether the two calls behind one rule succeed: the check with `-C`, and the change with `-A`
      or `-D` that follows if the check asks for it. */
  datatype Calls = Calls(check: bool, change: bool)

  const BOTH_WORK: Calls := Calls(true, true)

  /** `linux_iptables_ensure_rule`: a failed call changes nothing, and a rule that is there needs no change. */
  function Ensured(rules: multiset<Rule>, r: Rule, calls: Calls): multiset<Rule>
  {
    if calls.check && r !in rules && calls.change then rules + multiset{r} else rules
  }

  predicate EnsureSucceeds(rules: multiset<Rule>, r: Rule, calls: Calls)
  {
    calls.check && (r in rules || calls.change)
  }

  /** `linux_iptables_delete_rule`. */
  function Deleted(rules: multiset<Rule>, r: Rule, calls: Calls): multiset<Rule>
  {
    if calls.check && r in rules && calls.change then rules - multiset{r} else rules
  }

  /** Which calls of a cleanup succeed. */
  datatype CleanupLuck = CleanupLuck(masquerade: Calls, forwardOut: Calls, forwardIn: Calls, restore: bool)

  const ALL_GOES_WELL: CleanupLuck := CleanupLuck(BOTH_WORK, BOTH_WORK, BOTH_WORK, true)

  /** Which calls of a set-up succeed, with the luck of the cleanups before and after it. */
  datatype SetupLuck = SetupLuck(read: bool, enable: bool, forwardIn: Calls, forwardOut: Calls, masquerade: Calls,
                                 before: CleanupLuck, after: CleanupLuck)

  /** A cleanup deletes the masquerade rule first, then the two forward rules. */
  function Without(rules: multiset<Rule>, a: Rule, b: Rule, c: Rule, luck: CleanupLuck): multiset<Rule>
  {
    Deleted(Deleted(Deleted(rules, c, luck.masquerade), b, luck.forwardOut), a, luck.forwardIn)
  }

  /** Undoes what is recorded, as far as the calls succeed, and forgets it. */
  function Cleanup(iface: string, st: State, luck: CleanupLuck): (after: State)
    ensures after.runtime == NOTHING
  {
    var rules := st.host.rules;
    var kept :=
      if st.runtime.outbound.Some? && st.runtime.source.Some? then
        Without(rules, ForwardIn(iface), ForwardOut(iface), Masquerade(st.runtime.outbound.value, st.runtime.source.value), luck)
      else rules;
    State(Host(if st.runtime.wasEnabled == Some(false) && luck.restore then false else st.host.forwarding, kept), NOTHING)
  }

  /** The rules after the installation, and whether all of it went well: it stops at a failure. */
  function Installed(iface: string, rules: multiset<Rule>, outbound: string, source: string, luck: SetupLuck): (multiset<Rule>, bool)
  {
    var one := Ensured(rules, ForwardIn(iface), luck.forwardIn);
    var two := Ensured(one, ForwardOut(iface), luck.forwardOut);
    var three := Ensured(two, Masquerade(outbound, source), luck.masquerade);
    if !EnsureSucceeds(rules, ForwardIn(iface), luck.forwardIn) then (one, false)
    else if !EnsureSucceeds(one, ForwardOut(iface), luck.forwardOut) then (two, false)
    else (three, EnsureSucceeds(two, Masquerade(outbound, source), luck.masquerade))
  }

  function Setup(iface: string, st: State, outbound: string, source: string, luck: SetupLuck): State
  {
    var clean := Cleanup(iface, st, luck.before);
    var was := clean.host.forwarding;
    var recorded := Runtime(Some(outbound), Some(source), None);
    if !luck.read then Cleanup(iface, State(clean.host, recorded), luck.after)
    else if !was && !luck.enable then Cleanup(iface, State(clean.host, recorded.(wasEnabled := Some(was))), luck.after)
    else
      var (rules, ok) := Installed(iface, clean.host.rules, outbound, source, luck);
      var st' := State(Host(true, rules), recorded.(wasEnabled := Some(was)));
      if ok then st' else Cleanup(iface, st', luck.after)
  }

  /** What the configuration and the machine ask for: whether the IPv4 default route is advertised,
      the tunnel's source network if its address is valid, and the default device if there is one. */
  datatype Wish = Wish(advertised: bool, source: Option<string>, device: Option<string>)

  predicate Granted(w: Wish)
  {
    w.advertised && w.source.Some? && w.device.Some?
  }

  function Reconcile(iface: string, st: State, w: Wish, luck: SetupLuck): State
  {
    if !Granted(w) then Cleanup(iface, st, luck.before)
    else if st.runtime.outbound == w.device && st.runtime.source == w.source then st
    else Setup(iface, st, w.device.value, w.source.value, luck)
  }

  // ---- Runs ----

  /** A reconcile, a cleanup, or other programs replacing some of their own rules. */
  datatype Event =
    | Reconciled(wish: Wish, setup: SetupLuck)
    | CleanedUp(cleanup: CleanupLuck)
    | OthersChanged(dropped: multiset<Rule>, added: multiset<Rule>)

  function Step(iface: string, st: State, e: Event): State
  {
    match e
    case Reconciled(w, luck) => Reconcile(iface, st, w, luck)
    case CleanedUp(luck) => Cleanup(iface, st, luck)
    case OthersChanged(dropped, added) => st.(host := st.host.(rules := st.host.rules - dropped + added))
  }

  function Run(iface: string, host: Host, trace: seq<Event>): State
  {
    if trace == [] then State(host, NOTHING) else Step(iface, Run(iface, host, trace[..|trace| - 1]), trace[|trace| - 1])
  }

  /** The rules of the others: the ones found at first, and what the others made of them. */
  function Others(host: Host, trace: seq<Event>): multiset<Rule>
  {
    if trace == [] then host.rules
    else
      var before := Others(host, trace[..|trace| - 1]);
      match trace[|trace| - 1]
      case OthersChanged(dropped, added) => before - dropped + added
      case _ => before
  }

  ghost predicate NoneOfOurs(iface: string, rules: multiset<Rule>)
  {
    forall r :: r in rules ==> !Ours(iface, r)
  }

  /** Others keep their hands off the daemon's rules. */
  ghost predicate Polite(iface: string, e: Event)
  {
    e.OthersChanged? ==> NoneOfOurs(iface, e.dropped) && NoneOfOurs(iface, e.added)
  }

  /** Every restore and delete of the event succeeds; reads, writes and installs may fail. */
  predicate CleansUpWell(e: Event)
  {
    match e
    case Reconciled(_, luck) => luck.before == ALL_GOES_WELL && luck.after == ALL_GOES_WELL
    case CleanedUp(luck) => luck == ALL_GOES_WELL
    case OthersChanged(_, _) => true
  }

  // ---- All or nothing ----

  ghost predicate Off(flag: bool, others: multiset<Rule>, st: State)
  {
    st == State(Host(flag, others), NOTHING)
  }

  ghost predicate On(iface: string, flag: bool, others: multiset<Rule>, outbound: string, source: string, st: State)
  {
    st == State(Host(true, others + OurRules(iface, outbound, source)), Runtime(Some(outbound), Some(source), Some(flag)))
  }

  /** Either nothing is recorded and the machine is as it was, or all three rules for the recorded
      device and network are in place, forwarding is on and the old flag is remembered. */
  ghost predicate Settled(iface: string, flag: bool, others: multiset<Rule>, st: State)
  {
    Off(flag, others, st) || exists o, s :: On(iface, flag, others, o, s, st)
  }

  lemma OurRulesDiffer(iface: string, outbound: string, source: string)
    ensures var (a, b, c) := (ForwardIn(iface), ForwardOut(iface), Masquerade(outbound, source));
            a != b && b != c && a != c && Ours(iface, a) && Ours(iface, b) && Ours(iface, c)
  {
    assert ForwardIn(iface).args[1] == "-i" && ForwardOut(iface).args[1] == "-o";
  }

  function LessOne(n: nat): nat
  {
    if n == 0 then 0 else n - 1
  }

  lemma DeletedCount(rules: multiset<Rule>, r: Rule, calls: Calls, q: Rule)
    ensures Deleted(rules, r, calls)[q] == if q == r && calls == BOTH_WORK then LessOne(rules[q]) else rules[q]
  {
  }

  lemma {:induction false} WithoutCount(rules: multiset<Rule>, a: Rule, b: Rule, c: Rule, luck: CleanupLuck, q: Rule)
    requires a != b && b != c && a != c
    ensures Without(rules, a, b, c, luck)[q] ==
              if (q == a && luck.forwardIn == BOTH_WORK) || (q == b && luck.forwardOut == BOTH_WORK) || (q == c && luck.masquerade == BOTH_WORK)
              then LessOne(rules[q]) else rules[q]
  {
    hide Deleted, LessOne;
    var one := Deleted(rules, c, luck.masquerade);
    DeletedCount(rules, c, luck.masquerade, q);
    DeletedCount(one, b, luck.forwardOut, q);
    DeletedCount(Deleted(one, b, luck.forwardOut), a, luck.forwardIn, q);
  }

  lemma OursCount(iface: string, outbound: string, source: string, q: Rule)
    ensures OurRules(iface, outbound, source)[q] ==
              if q == ForwardIn(iface) || q == ForwardOut(iface) || q == Masquerade(outbound, source) then 1 else 0
  {
    hide ForwardIn, ForwardOut, Masquerade;
    OurRulesDiffer(iface, outbound, source);
  }

  /** From any part of the three rules, a cleanup whose calls succeed leaves only the others'. */
  lemma {:induction false} DeletesUndoInstalls(iface: string, others: multiset<Rule>, part: multiset<Rule>, outbound: string, source: string)
    requires NoneOfOurs(iface, others) && part <= OurRules(iface, outbound, source)
    ensures Without(others + part, ForwardIn(iface), ForwardOut(iface), Masquerade(outbound, source), ALL_GOES_WELL) == others
  {
    hide ForwardIn, ForwardOut, Masquerade, Ours, Without, OurRules;
    OurRulesDiffer(iface, outbound, source);
    var (a, b, c) := (ForwardIn(iface), ForwardOut(iface), Masquerade(outbound, source));
    var rest := Without(others + part, a, b, c, ALL_GOES_WELL);
    forall r ensures rest[r] == others[r] {
      WithoutCount(others + part, a, b, c, ALL_GOES_WELL, r);
      OursCount(iface, outbound, source, r);
      assert part[r] <= OurRules(iface, outbound, source)[r];
      assert r == a || r == b || r == c ==> r !in others;
    }
  }

  lemma {:induction false} InstallsAddRules(iface: string, others: multiset<Rule>, outbound: string, source: string, luck: SetupLuck)
    requires NoneOfOurs(iface, others)
    ensures var (rules, ok) := Installed(iface, others, outbound, source, luck);
            && (ok <==> luck.forwardIn == luck.forwardOut == luck.masquerade == BOTH_WORK)
            && (ok ==> rules == others + OurRules(iface, outbound, source))
            && others <= rules && rules - others <= OurRules(iface, outbound, source)
  {
    hide ForwardIn, ForwardOut, Masquerade, Ours;
    OurRulesDiffer(iface, outbound, source);
    var (a, b, c) := (ForwardIn(iface), ForwardOut(iface), Masquerade(outbound, source));
    assert a !in others && b !in others && c !in others;
  }

  /** Setting up is atomic: it ends with everything in place exactly when each call it makes
      succeeds, and otherwise with the machine as it was. */
  lemma {:induction false} SetupIsAtomic(iface: string, flag: bool, others: multiset<Rule>, st: State, outbound: string, source: string, luck: SetupLuck)
    requires NoneOfOurs(iface, others) && Settled(iface, flag, others, st)
    requires luck.before == ALL_GOES_WELL && luck.after == ALL_GOES_WELL
    ensures var after := Setup(iface, st, outbound, source, luck);
            if luck.read && (flag || luck.enable) && luck.forwardIn == luck.forwardOut == luck.masquerade == BOTH_WORK
            then On(iface, flag, others, outbound, source, after)
            else Off(flag, others, after)
  {
    hide Without, Ours, OurRules, Installed;
    CleanupSettles(iface, flag, others, st);
    var clean := Cleanup(iface, st, luck.before);
    assert Off(flag, others, clean);
    CleanupOfPart(iface, flag, others, multiset{}, outbound, source, None);
    CleanupOfPart(iface, flag, others, multiset{}, outbound, source, Some(flag));
    assert others + multiset{} == others;
    InstallsAddRules(iface, others, outbound, source, luck);
    var (rules, ok) := Installed(iface, others, outbound, source, luck);
    assert rules == others + (rules - others);
    CleanupOfPart(iface, true, others, rules - others, outbound, source, Some(flag));
  }

  lemma {:induction false} CleanupOfPart(iface: string, on: bool, others: multiset<Rule>, part: multiset<Rule>,
                                         outbound: string, source: string, was: Option<bool>)
    requires NoneOfOurs(iface, others) && part <= OurRules(iface, outbound, source)
    ensures Cleanup(iface, State(Host(on, others + part), Runtime(Some(outbound), Some(source), was)), ALL_GOES_WELL) ==
              State(Host(if was == Some(false) then false else on, others), NOTHING)
  {
    hide Without;
    DeletesUndoInstalls(iface, others, part, outbound, source);
  }

  lemma {:induction false} CleanupSettles(iface: string, flag: bool, others: multiset<Rule>, st: State)
    requires NoneOfOurs(iface, others) && Settled(iface, flag, others, st)
    ensures Off(flag, others, Cleanup(iface, st, ALL_GOES_WELL))
  {
    hide Without, Ours, OurRules;
    if !Off(flag, others, st) {
      var o, s :| On(iface, flag, others, o, s, st);
      CleanupOfPart(iface, true, others, OurRules(iface, o, s), o, s, Some(flag));
    }
  }

  lemma {:induction false} StepSettles(iface: string, flag: bool, others: multiset<Rule>, st: State, e: Event)
    requires NoneOfOurs(iface, others) && Settled(iface, flag, others, st)
    requires Polite(iface, e) && CleansUpWell(e)
    ensures var others' := if e.OthersChanged? then others - e.dropped + e.added else others;
            NoneOfOurs(iface, others') && Settled(iface, flag, others', Step(iface, st, e))
  {
    hide Ours, Cleanup, Setup, OurRules;
    match e
    case CleanedUp(luck) => CleanupSettles(iface, flag, others, st);
    case Reconciled(w, luck) =>
      if !Granted(w) {
        CleanupSettles(iface, flag, others, st);
      } else if !(st.runtime.outbound == w.device && st.runtime.source == w.source) {
        SetupIsAtomic(iface, flag, others, st, w.device.value, w.source.value, luck);
      }
    case OthersChanged(dropped, added) =>
      if !Off(flag, others, st) {
        var o, s :| On(iface, flag, others, o, s, st);
        OthersLeaveOursAlone(iface, others, dropped, o, s);
        assert On(iface, flag, others - dropped + added, o, s, Step(iface, st, e)) by {
          assert (others - dropped) + OurRules(iface, o, s) + added == others - dropped + added + OurRules(iface, o, s);
        }
      }
  }

  lemma OthersLeaveOursAlone(iface: string, others: multiset<Rule>, dropped: multiset<Rule>, outbound: string, source: string)
    requires NoneOfOurs(iface, dropped)
    ensures others + OurRules(iface, outbound, source) - dropped == (others - dropped) + OurRules(iface, outbound, source)
  {
    hide ForwardIn, ForwardOut, Masquerade, Ours;
    OurRulesDiffer(iface, outbound, source);
    var ours := OurRules(iface, outbound, source);
    forall r ensures (others + ours - dropped)[r] == ((others - dropped) + ours)[r] {
      if r in ours { assert Ours(iface, r) && r !in dropped; }
    }
  }

  /** Forwarding is all or nothing over every run in which restores and deletes succeed, whatever
      reads, writes and installs fail in between. */
  lemma {:induction false} AllOrNothing(iface: string, host: Host, trace: seq<Event>)
    requires NoneOfOurs(iface, host.rules)
    requires forall i :: 0 <= i < |trace| ==> Polite(iface, trace[i]) && CleansUpWell(trace[i])
    ensures NoneOfOurs(iface, Others(host, trace))
    ensures Settled(iface, host.forwarding, Others(host, trace), Run(iface, host, trace))
  {
    hide NoneOfOurs, Step, Polite, CleansUpWell, On;
    if trace == [] {
      assert Off(host.forwarding, host.rules, Run(iface, host, []));
    } else {
      var last := |trace| - 1;
      assert forall i :: 0 <= i < last ==> trace[..last][i] == trace[i];
      AllOrNothing(iface, host, trace[..last]);
      StepSettles(iface, host.forwarding, Others(host, trace[..last]), Run(iface, host, trace[..last]), trace[last]);
    }
  }

  /** Reconciling with what the machine can grant and no failing call reaches the wish from any
      settled state, and reconciling again changes nothing, however the luck turns. */
  lemma {:induction false} ReconcileReachesWish(iface: string, flag: bool, others: multiset<Rule>, st: State, w: Wish, luck: SetupLuck, again: SetupLuck)
    requires NoneOfOurs(iface, others) && Settled(iface, flag, others, st) && Granted(w)
    requires luck == SetupLuck(true, true, BOTH_WORK, BOTH_WORK, BOTH_WORK, ALL_GOES_WELL, ALL_GOES_WELL)
    ensures On(iface, flag, others, w.device.value, w.source.value, Reconcile(iface, st, w, luck))
    ensures var once := Reconcile(iface, st, w, luck); Reconcile(iface, once, w, again) == once
  {
    hide NoneOfOurs, Setup, OurRules, Cleanup;
    if st.runtime.outbound == w.device && st.runtime.source == w.source {
      var o, s :| On(iface, flag, others, o, s, st);
    } else {
      SetupIsAtomic(iface, flag, others, st, w.device.value, w.source.value, luck);
    }
  }

  // ---- When calls of a cleanup fail ----

  /** A cleanup of a full set-up brings the machine back exactly when every delete succeeds, and
      the restore too if forwarding used to be off. It forgets the set-up in any case. */
  lemma {:induction false} CleanupIsCleanExactly(iface: string, flag: bool, others: multiset<Rule>, outbound: string, source: string, st: State, luck: CleanupLuck)
    requires NoneOfOurs(iface, others) && On(iface, flag, others, outbound, source, st)
    ensures Cleanup(iface, st, luck).runtime == NOTHING
    ensures Off(flag, others, Cleanup(iface, st, luck)) <==>
              luck.masquerade == luck.forwardOut == luck.forwardIn == BOTH_WORK && (flag || luck.restore)
  {
    hide ForwardIn, ForwardOut, Masquerade, Ours, Without, OurRules;
    OurRulesDiffer(iface, outbound, source);
    var (a, b, c) := (ForwardIn(iface), ForwardOut(iface), Masquerade(outbound, source));
    var left := Cleanup(iface, st, luck).host.rules;
    assert left == Without(others + OurRules(iface, outbound, source), a, b, c, luck);
    forall r ensures left[r] == others[r] <==> 
              !((r == a && luck.forwardIn != BOTH_WORK) || (r == b && luck.forwardOut != BOTH_WORK) || (r == c && luck.masquerade != BOTH_WORK))
    {
      WithoutCount(others + OurRules(iface, outbound, source), a, b, c, luck, r);
      OursCount(iface, outbound, source, r);
      assert r == a || r == b || r == c ==> r !in others;
    }
    assert left == others <==> left[a] == others[a] && left[b] == others[b] && left[c] == others[c];
  }

  /** If forwarding is on and not remembered as once off, no cleanup will ever turn it off. */
  ghost predicate StuckOn(st: State)
  {
    st.host.forwarding && st.runtime.wasEnabled != Some(false)
  }

  lemma {:induction false} StepStaysOn(iface: string, st: State, e: Event)
    requires StuckOn(st)
    ensures StuckOn(Step(iface, st, e))
  {
    hide Without, Installed;
  }

  /** So it stays on over every run, whatever calls fail and whatever the others do to their rules. */
  lemma {:induction false} StuckStaysOn(iface: string, host: Host, trace: seq<Event>)
    requires host.forwarding
    ensures StuckOn(Run(iface, host, trace))
  {
    if trace != [] {
      hide Step;
      StuckStaysOn(iface, host, trace[..|trace| - 1]);
      StepStaysOn(iface, Run(iface, host, trace[..|trace| - 1]), trace[|trace| - 1]);
    }
  }

  /** Clean up a set-up that found forwarding off. If the restore fails, it is never made up for:
      the next set-up takes the flag it finds for the original one, and forwarding is on at the end
      of every later run. It is, for all later runs, exactly if the restore fails. */
  lemma {:induction false} LostRestoreSticks(iface: string, others: multiset<Rule>, outbound: string, source: string, st: State, luck: CleanupLuck)
    requires On(iface, false, others, outbound, source, st)
    ensures (forall trace :: Run(iface, Cleanup(iface, st, luck).host, trace).host.forwarding) <==> !luck.restore
  {
    hide Without, OurRules, Step;
    var host := Cleanup(iface, st, luck).host;
    assert host.forwarding <==> !luck.restore;
    assert Run(iface, host, []).host == host;
    if !luck.restore {
      forall trace ensures Run(iface, host, trace).host.forwarding { StuckStaysOn(iface, host, trace); }
    }
  }

  lemma DeletedElsewhere(rules: multiset<Rule>, r: Rule, q: Rule, calls: Calls)
    requires q != r
    ensures Deleted(rules, r, calls)[q] == rules[q] && Ensured(rules, r, calls)[q] == rules[q]
  {
  }

  lemma {:induction false} CleanupSparesOthers(iface: string, st: State, luck: CleanupLuck, r: Rule)
    requires !Ours(iface, r)
    ensures Cleanup(iface, st, luck).host.rules[r] == st.host.rules[r]
  {
    hide Deleted, ForwardIn, ForwardOut, Masquerade;
    if st.runtime.outbound.Some? && st.runtime.source.Some? {
      var (a, b, c) := (ForwardIn(iface), ForwardOut(iface), Masquerade(st.runtime.outbound.value, st.runtime.source.value));
      var one := Deleted(st.host.rules, c, luck.masquerade);
      var two := Deleted(one, b, luck.forwardOut);
      DeletedElsewhere(st.host.rules, c, r, luck.masquerade);
      DeletedElsewhere(one, b, r, luck.forwardOut);
      DeletedElsewhere(two, a, r, luck.forwardIn);
    }
  }

  lemma {:induction false} StepSparesOthers(iface: string, st: State, e: Event, r: Rule)
    requires !Ours(iface, r) && !e.OthersChanged?
    ensures Step(iface, st, e).host.rules[r] == st.host.rules[r]
  {
    hide Cleanup, ForwardIn, ForwardOut, Masquerade, Ensured;
    match e
    case CleanedUp(luck) => CleanupSparesOthers(iface, st, luck, r);
    case Reconciled(w, luck) =>
      CleanupSparesOthers(iface, st, luck.before, r);
      if Granted(w) {
        var (o, s) := (w.device.value, w.source.value);
        var clean := Cleanup(iface, st, luck.before);
        var recorded := Runtime(Some(o), Some(s), None);
        var was := recorded.(wasEnabled := Some(clean.host.forwarding));
        CleanupSparesOthers(iface, State(clean.host, recorded), luck.after, r);
        CleanupSparesOthers(iface, State(clean.host, was), luck.after, r);
        var rules := Installed(iface, clean.host.rules, o, s, luck).0;
        InstalledSparesOthers(iface, clean.host.rules, o, s, luck, r);
        CleanupSparesOthers(iface, State(Host(true, rules), was), luck.after, r);
      }
  }

  lemma {:induction false} InstalledSparesOthers(iface: string, rules: multiset<Rule>, o: string, s: string, luck: SetupLuck, r: Rule)
    requires !Ours(iface, r)
    ensures Installed(iface, rules, o, s, luck).0[r] == rules[r]
  {
    hide Ensured, ForwardIn, ForwardOut, Masquerade;
    var one := Ensured(rules, ForwardIn(iface), luck.forwardIn);
    var two := Ensured(one, ForwardOut(iface), luck.forwardOut);
    DeletedElsewhere(rules, ForwardIn(iface), r, luck.forwardIn);
    DeletedElsewhere(one, ForwardOut(iface), r, luck.forwardOut);
    DeletedElsewhere(two, Masquerade(o, s), r, luck.masquerade);
  }

  /** Whatever fails, the rules of others are theirs alone to change. */
  lemma {:induction false} OthersRulesSurvive(iface: string, host: Host, trace: seq<Event>, r: Rule)
    requires !Ours(iface, r)
    ensures Run(iface, host, trace).host.rules[r] == Others(host, trace)[r]
  {
    hide Reconcile, Cleanup;
    if trace != [] {
      var last := |trace| - 1;
      OthersRulesSurvive(iface, host, trace[..last], r);
      if !trace[last].OthersChanged? {
        StepSparesOthers(iface, Run(iface, host, trace[..last]), trace[last], r);
      }
    }
  }
}
