/**
 Guest signal actions kept on top of the host's: an action the guest defines is claimed and the host runs a
 wrapper; every other action is the host's own. Flag and signal sets are sets of bit numbers.
 */
module SignalAction {

  const SIG_DFL: nat := 0
  const SIG_IGN: nat := 1
  const GUEST_SIG_ERR: nat := 0xffff_ffff
  const HOST_SIG_ERR: nat := 0xffff_ffff_ffff_ffff
  const SA_SIGINFO: nat := 2
  const SA_RESTORER: nat := 26

  datatype GuestAction = GuestAction(handler: nat, flags: set<nat>, restorer: nat, mask: set<nat>)

  datatype HostAction = HostAction(handler: nat, flags: set<nat>, mask: set<nat>)

  datatype Maybe<T> = None | Some(value: T)

  /** The host functions that have been made callable from the guest. */
  type Wrapped = set<nat>

  // ---------------------------------------------------------------------------------------------- conversions

  predicate Claims(w: Wrapped, sa: GuestAction) {
    if SA_SIGINFO in sa.flags then sa.handler != SIG_DFL && sa.handler !in w
    else sa.handler !in {SIG_DFL, SIG_IGN, GUEST_SIG_ERR} && sa.handler !in w
  }

  function ConvertGuestToHost(w: Wrapped, wrapper: nat, sa: GuestAction): HostAction {
    var claim := Claims(w, sa);
    var handler :=
      if claim then wrapper
      else if SA_SIGINFO !in sa.flags && sa.handler == GUEST_SIG_ERR then HOST_SIG_ERR
      else sa.handler;
    HostAction(handler, sa.flags - {SA_RESTORER} + (if claim then {SA_SIGINFO} else {}), sa.mask)
  }

  function WrapForGuest(host: HostAction): nat {
    if SA_SIGINFO !in host.flags && host.handler == HOST_SIG_ERR then GUEST_SIG_ERR else host.handler
  }

  /** Functions the host reports become callable; the special values do not. */
  function NowWrapped(w: Wrapped, host: HostAction): Wrapped {
    if host.handler == 0 || (SA_SIGINFO !in host.flags && host.handler in {SIG_IGN, HOST_SIG_ERR}) then w
    else w + {host.handler}
  }

  /** Guest signal sets have 64 bits. */
  function Small(mask: set<nat>): set<nat> {
    set s | s in mask && s < 64
  }

  function ConvertHostToGuest(host: HostAction): GuestAction {
    GuestAction(WrapForGuest(host), host.flags - {SA_RESTORER}, 0, Small(host.mask))
  }

  // ---------------------------------------------------------------------------------------------- the state machine

  datatype State = State(claimed: GuestAction, host: HostAction, wrapped: Wrapped)

  /**
   One call: the action to set, if any; whether the old one is asked for; whether the host call works; and
   whether the host adds its own SA_RESTORER to what it reports.
   */
  datatype Call = Call(newAction: Maybe<GuestAction>, wantsOld: bool, hostOk: bool, hostRestorer: bool)

  datatype Reply = Failed | Done(previous: Maybe<GuestAction>)

  predicate IsClaimed(s: State) {
    s.claimed.handler != SIG_DFL
  }

  function HostReport(host: HostAction, restorer: bool): HostAction {
    if restorer then host.(flags := host.flags + {SA_RESTORER}) else host
  }

  function Old(s: State, restorer: bool): GuestAction {
    if IsClaimed(s) then s.claimed else ConvertHostToGuest(HostReport(s.host, restorer))
  }

  function Step(s: State, wrapper: nat, c: Call): (State, Reply) {
    if !c.hostOk then (s, Failed) else
      var wraps := c.wantsOld && !IsClaimed(s);
      var w := if wraps then NowWrapped(s.wrapped, HostReport(s.host, c.hostRestorer)) else s.wrapped;
      var reply := Done(if c.wantsOld then Some(Old(s, c.hostRestorer)) else None);
      match c.newAction
      case None => (s.(wrapped := w), reply)
      case Some(sa) =>
        var claimed := if Claims(s.wrapped, sa) then sa else s.claimed.(handler := SIG_DFL);
        (State(claimed, ConvertGuestToHost(s.wrapped, wrapper, sa), w), reply)
  }

  /** A call for this signal, or a function wrapped by anyone else: another signal, another library. */
  datatype Event = Called(call: Call) | Wraps(func: nat)

  function After(s: State, wrapper: nat, e: Event): State {
    match e
    case Called(c) => Step(s, wrapper, c).0
    case Wraps(f) => s.(wrapped := s.wrapped + {f})
  }

  function Run(s: State, wrapper: nat, events: seq<Event>): State {
    if events == [] then s else After(Run(s, wrapper, events[..|events| - 1]), wrapper, events[|events| - 1])
  }

  predicate Sets(e: Event) {
    e.Called? && e.call.hostOk && e.call.newAction.Some?
  }

  /** The reference: a variable that holds the last action set. */
  function LastAction(init: GuestAction, events: seq<Event>): GuestAction {
    if events == [] then init else
      var e := events[|events| - 1];
      if Sets(e) then e.call.newAction.value else LastAction(init, events[..|events| - 1])
  }

  /** The same action, except that SA_RESTORER and the restorer are dropped. */
  function Stripped(sa: GuestAction): GuestAction {
    sa.(flags := sa.flags - {SA_RESTORER}, restorer := 0)
  }

  /** No host function lives at the error values, and the wrapper is not one the guest can name. */
  predicate WrappedOk(w: Wrapped, wrapper: nat) {
    HOST_SIG_ERR !in w && GUEST_SIG_ERR !in w && wrapper !in w
    && wrapper !in {SIG_DFL, SIG_IGN, HOST_SIG_ERR, GUEST_SIG_ERR}
  }

  predicate CallOk(c: Call) {
    c.newAction.Some? ==> forall s | s in c.newAction.value.mask :: s < 64
  }

  predicate EventOk(e: Event, wrapper: nat) {
    match e
    case Called(c) => CallOk(c)
    case Wraps(f) => f !in {HOST_SIG_ERR, GUEST_SIG_ERR, wrapper}
  }

  predicate StartOk(s: State, wrapper: nat) {
    && WrappedOk(s.wrapped, wrapper) && !IsClaimed(s)
    && s.host.handler != wrapper && s.host.handler != GUEST_SIG_ERR
    && (SA_SIGINFO in s.host.flags ==> s.host.handler != HOST_SIG_ERR)
  }

  predicate Represents(s: State, wrapper: nat, last: GuestAction) {
    && WrappedOk(s.wrapped, wrapper) && (s.host.handler == wrapper <==> IsClaimed(s))
    && s.host.handler != GUEST_SIG_ERR && (SA_SIGINFO in s.host.flags ==> s.host.handler != HOST_SIG_ERR)
    && (if IsClaimed(s) then s.claimed == last && HostFollows(s.host, wrapper, last)
        else ConvertHostToGuest(s.host) == Stripped(last))
  }

  /** For a claimed signal the kernel has the guest's mask and flags, and passes the wrapper signal information. */
  predicate HostFollows(host: HostAction, wrapper: nat, sa: GuestAction) {
    host == HostAction(wrapper, sa.flags - {SA_RESTORER} + {SA_SIGINFO}, sa.mask)
    && (forall m | m in sa.mask :: m < 64) && (SA_SIGINFO in sa.flags || sa.handler !in {SIG_IGN, GUEST_SIG_ERR})
  }

  lemma SetRepresents(w: Wrapped, wrapper: nat, sa: GuestAction)
    requires WrappedOk(w, wrapper) && (forall s | s in sa.mask :: s < 64) && !Claims(w, sa)
    ensures var host := ConvertGuestToHost(w, wrapper, sa);
            && ConvertHostToGuest(host) == Stripped(sa) && host.handler != wrapper && host.handler != GUEST_SIG_ERR
            && (SA_SIGINFO in host.flags ==> host.handler != HOST_SIG_ERR)
  {
    assert Small(sa.mask) == sa.mask;
    var host := ConvertGuestToHost(w, wrapper, sa);
    assert host.flags - {SA_RESTORER} == sa.flags - {SA_RESTORER};
  }

  lemma AfterRepresents(s: State, wrapper: nat, e: Event, last: GuestAction)
    requires Represents(s, wrapper, last) && EventOk(e, wrapper)
    ensures Represents(After(s, wrapper, e), wrapper, if Sets(e) then e.call.newAction.value else last)
  {
    if Sets(e) && !Claims(s.wrapped, e.call.newAction.value) {
      SetRepresents(s.wrapped, wrapper, e.call.newAction.value);
    }
  }

  lemma {:induction false} RunRepresents(s: State, wrapper: nat, events: seq<Event>)
    requires StartOk(s, wrapper) && forall e | e in events :: EventOk(e, wrapper)
    ensures Represents(Run(s, wrapper, events), wrapper, LastAction(ConvertHostToGuest(s.host), events))
  {
    if events == [] {
      assert Stripped(ConvertHostToGuest(s.host)) == ConvertHostToGuest(s.host);
    } else {
      var rest, e := events[..|events| - 1], events[|events| - 1];
      RunRepresents(s, wrapper, rest);
      AfterRepresents(Run(s, wrapper, rest), wrapper, e, LastAction(ConvertHostToGuest(s.host), rest));
    }
  }

  /**
   Over any run the old action a call reports is the last one set, up to SA_RESTORER when the signal is not
   claimed, and the host handler is the wrapper exactly when it is.
   */
  lemma ReportsLastAction(s: State, wrapper: nat, events: seq<Event>, c: Call)
    requires StartOk(s, wrapper) && (forall e | e in events :: EventOk(e, wrapper)) && c.hostOk && c.wantsOld
    ensures var now, last := Run(s, wrapper, events), LastAction(ConvertHostToGuest(s.host), events);
            && Step(now, wrapper, c).1 == Done(Some(if IsClaimed(now) then last else Stripped(last)))
            && (now.host.handler == wrapper <==> IsClaimed(now))
  {
    RunRepresents(s, wrapper, events);
    var now := Run(s, wrapper, events);
    ReportIgnoresRestorer(now.host, c.hostRestorer);
  }

  lemma ReportIgnoresRestorer(host: HostAction, restorer: bool)
    ensures ConvertHostToGuest(HostReport(host, restorer)) == ConvertHostToGuest(host)
  {
    var h := HostReport(host, restorer);
    assert h.flags - {SA_RESTORER} == host.flags - {SA_RESTORER};
  }

  predicate SameHost(before: HostAction, after: HostAction) {
    after.handler == before.handler && after.flags == before.flags - {SA_RESTORER} && after.mask == Small(before.mask)
  }

  /** What every run keeps, whatever the last action was. */
  lemma {:induction false} RunKeeps(s: State, wrapper: nat, events: seq<Event>, last: GuestAction)
    returns (now: GuestAction)
    requires Represents(s, wrapper, last) && forall e | e in events :: EventOk(e, wrapper)
    ensures Represents(Run(s, wrapper, events), wrapper, now) && s.wrapped <= Run(s, wrapper, events).wrapped
  {
    if events == [] {
      now := last;
    } else {
      var rest, e := events[..|events| - 1], events[|events| - 1];
      now := RunKeeps(s, wrapper, rest, last);
      AfterRepresents(Run(s, wrapper, rest), wrapper, e, now);
      now := if Sets(e) then e.call.newAction.value else now;
    }
  }

  /** The state in which a saved action is set back, after anything in between. */
  function AtRestore(s: State, wrapper: nat, save: Call, between: seq<Event>): State {
    Run(Step(s, wrapper, save).0, wrapper, between)
  }

  /**
   Setting an action, anything in between, and then setting back what was reported restores the host's action,
   exactly when the signal was not claimed for an address that is a wrapped host function by then.
   */
  lemma SaveRestore(s: State, wrapper: nat, last: GuestAction, save: Call, between: seq<Event>, restore: Call)
    requires Represents(s, wrapper, last) && CallOk(save) && forall e | e in between :: EventOk(e, wrapper)
    requires save.hostOk && save.wantsOld && restore.hostOk
    requires restore.newAction == Step(s, wrapper, save).1.previous
    ensures var at := AtRestore(s, wrapper, save, between);
            SameHost(s.host, Step(at, wrapper, restore).0.host) <==> !(IsClaimed(s) && s.claimed.handler in at.wrapped)
  {
    ReportIgnoresRestorer(s.host, save.hostRestorer);
    AfterRepresents(s, wrapper, Called(save), last);
    var s1 := Step(s, wrapper, save).0;
    var _ := RunKeeps(s1, wrapper, between, if save.newAction.Some? then save.newAction.value else last);
    var at := AtRestore(s, wrapper, save, between);
    if IsClaimed(s) {
      assert Small(last.mask) == last.mask;
      assert Step(at, wrapper, restore).0.host == ConvertGuestToHost(at.wrapped, wrapper, last);
    } else {
      UnclaimedComesBack(s, wrapper, at.wrapped, last, save.hostRestorer);
    }
  }

  /** A host action reported to the guest, and so wrapped, converts back to itself as long as it stays wrapped. */
  lemma UnclaimedComesBack(s: State, wrapper: nat, w: Wrapped, last: GuestAction, restorer: bool)
    requires Represents(s, wrapper, last) && !IsClaimed(s) && NowWrapped(s.wrapped, HostReport(s.host, restorer)) <= w
    ensures SameHost(s.host, ConvertGuestToHost(w, wrapper, ConvertHostToGuest(s.host)))
  {
    var sa := ConvertHostToGuest(s.host);
    assert !Claims(w, sa);
  }

  /** That case is reached: the guest asks for the old action while setting the host's own handler. */
  lemma RestoreLosesClaim()
    ensures var start := State(GuestAction(SIG_DFL, {}, 0, {}), HostAction(4096, {}, {}), {});
            var call := Call(Some(GuestAction(4096, {}, 0, {})), true, true, false);
            var s := Step(start, 8192, call).0;
            StartOk(start, 8192) && IsClaimed(s) && s.claimed.handler in s.wrapped
  {
  }

  // ---------------------------------------------------------------------------------------------- the class

  /** Memory a caller passes by pointer. */
  class ActionBox {
    var value: GuestAction

    constructor (v: GuestAction)
      ensures value == v
    {
      value := v;
    }
  }

  /** The host kernel's action for the signal, and the functions wrapped so far. */
  class HostSignal {
    var action: HostAction
    var wrapped: Wrapped

    method Sigaction(newAction: Maybe<HostAction>, ok: bool, restorer: bool) returns (old_: HostAction)
      modifies this`action
      ensures old_ == HostReport(old(action), restorer)
      ensures action == if ok && newAction.Some? then newAction.value else old(action)
    {
      old_ := HostReport(action, restorer);
      if ok && newAction.Some? {
        action := newAction.value;
      }
    }
  }

  class GuestSignalAction {
    var claimedGuestSa: GuestAction

    constructor ()
      ensures claimedGuestSa == GuestAction(SIG_DFL, {}, 0, {})
    {
      claimedGuestSa := GuestAction(SIG_DFL, {}, 0, {});
    }

    ghost function Abstract(host: HostSignal): State
      reads this, host
    {
      State(claimedGuestSa, host.action, host.wrapped)
    }

    /** A signal cannot be claimed for the default action. */
    method Claim(sa: GuestAction)
      requires sa.handler != SIG_DFL
      modifies this
      ensures claimedGuestSa == sa
    {
      claimedGuestSa := sa;
    }

    method Unclaim()
      modifies this
      ensures claimedGuestSa == old(claimedGuestSa).(handler := SIG_DFL)
    {
      claimedGuestSa := claimedGuestSa.(handler := SIG_DFL);
    }

    /** The branches of the source; the action comes with whether it is claimed. */
    method ConvertGuest(host: HostSignal, sa: GuestAction, wrapper: nat) returns (h: HostAction, claim: bool)
      ensures h == ConvertGuestToHost(host.wrapped, wrapper, sa) && claim == Claims(host.wrapped, sa)
    {
      var handler := SIG_DFL;
      claim := false;
      if SA_SIGINFO in sa.flags {
        if sa.handler == 0 {
          handler := SIG_DFL;
        } else if sa.handler in host.wrapped {
          handler := sa.handler;
        } else {
          handler, claim := wrapper, true;
        }
      } else if sa.handler == SIG_DFL {
        handler := SIG_DFL;
      } else if sa.handler == SIG_IGN {
        handler := SIG_IGN;
      } else if sa.handler == GUEST_SIG_ERR {
        handler := HOST_SIG_ERR;
      } else if sa.handler in host.wrapped {
        handler := sa.handler;
      } else {
        handler, claim := wrapper, true;
      }
      h := HostAction(handler, sa.flags - {SA_RESTORER}, sa.mask);
      if claim {
        h := h.(flags := h.flags + {SA_SIGINFO});
      }
    }

    /** The new and the old action may be the same object. */
    method Change(host: HostSignal, newSa: ActionBox?, wrapper: nat, oldSa: ActionBox?,
                  hostOk: bool, hostRestorer: bool)
      returns (ok: bool)
      modifies this, host, oldSa
      ensures var newAction := if newSa == null then None else Some(old(newSa.value));
              var c := Call(newAction, oldSa != null, hostOk, hostRestorer);
              var (after, reply) := Step(old(Abstract(host)), wrapper, c);
              && Abstract(host) == after && (ok <==> reply.Done?)
              && (oldSa != null ==> oldSa.value == if ok then reply.previous.value else old(oldSa.value))
    {
      var newHost, claim, saved := None, false, GuestAction(SIG_DFL, {}, 0, {});
      if newSa != null {
        saved := newSa.value;
        var h;
        h, claim := ConvertGuest(host, saved, wrapper);
        newHost := Some(h);
      }
      var oldHost := host.Sigaction(newHost, hostOk, hostRestorer);
      if !hostOk {
        return false;
      }
      if oldSa != null {
        if claimedGuestSa.handler != SIG_DFL {
          oldSa.value := claimedGuestSa;
        } else {
          oldSa.value := ConvertHostToGuest(oldHost);
          host.wrapped := NowWrapped(host.wrapped, oldHost);
        }
      }
      if newHost.Some? {
        if claim {
          Claim(saved);
        } else {
          Unclaim();
        }
      }
      return true;
    }
  }
}
