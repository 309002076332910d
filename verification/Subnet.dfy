/** The allocation of new subnets: service/network.go, NewCmsSubnet, with what service/vm.go and startup/init.go do to
    the stored value, run one create after the other, with a crash possible between any two steps. */
module Subnet {
  import opened Common
  import opened Network

  /** How far the create that is under way has got. */
  datatype Progress =
    | Ready
    | Written(previous: string, next: string)        // the row is ahead, the variable is not yet
    | Requesting(previous: string, next: string)     // both are ahead; CMS is asked for next
    | Rejected(previous: string)                     // CMS has answered with an error
    | RolledBack(previous: string)                   // the row is back, the variable is not yet
    | Granted(next: string, ip: string)          // the rest of the create is under way

  /** lastSubnet is the variable, row the stored value, granted the subnets CMS has allocated, in order. */
  datatype Allocator = Allocator(lastSubnet: string, row: string, progress: Progress, granted: seq<string>)

  /** Lost: CMS has allocated the subnet, but its answer did not arrive. */
  datatype Answer = Grant(ip: string) | Refuse | Lost

  datatype Action =
    | WriteAhead(ok: bool)
    | Remember
    | Reply(answer: Answer)
    | RollBack(ok: bool)
    | Restore
    | Finish(corrected: bool)                    // corrected: the create got to its UPDATE, which succeeded
    | Crash                                      // and restart from the stored value

  function Apply(a: Allocator, x: Action): Allocator {
    match (a.progress, x)
    case (_, Crash) => a.(lastSubnet := a.row, progress := Ready)
    case (Ready, WriteAhead(ok)) =>
      var next := NextSubnet(a.lastSubnet);
      if ok && next.Text? then a.(row := next.value, progress := Written(a.lastSubnet, next.value)) else a
    case (Written(previous, next), Remember) => a.(lastSubnet := next, progress := Requesting(previous, next))
    case (Requesting(previous, next), Reply(Grant(ip))) =>
      a.(granted := a.granted + [next], progress := Granted(next, ip))
    case (Requesting(previous, next), Reply(Refuse)) => a.(progress := Rejected(previous))
    case (Requesting(previous, next), Reply(Lost)) => a.(granted := a.granted + [next], progress := Rejected(previous))
    case (Rejected(previous), RollBack(ok)) =>
      if ok then a.(row := previous, progress := RolledBack(previous)) else a.(progress := Ready)
    case (RolledBack(previous), Restore) => a.(lastSubnet := previous, progress := Ready)
    case (Granted(_, ip), Finish(corrected)) => a.(row := if corrected then ip else a.row, progress := Ready)
    case _ => a
  }

  function Run(a: Allocator, xs: seq<Action>): Allocator
    decreases |xs|
  {
    if xs == [] then a else Run(Apply(a, xs[0]), xs[1..])
  }

  // ---------------------------------------------------------------- what is assumed of a run

  /** An address that CMS gives lies in the subnet it was asked for, which is not "err". */
  predicate AddressFits(a: Allocator, x: Action) {
    a.progress.Requesting? && x.Reply? && x.answer.Grant? ==>
      a.progress.next != "err" && a.progress.next <= x.answer.ip
  }

  /** CMS allocates a subnet named "err" on the quiet. */
  predicate LosesErr(a: Allocator, x: Action) {
    a.progress.Requesting? && x == Reply(Lost) && a.progress.next == "err"
  }

  /** A lost answer is rolled back: the subnet that CMS has granted is taken for free again. */
  predicate GivesBackGranted(a: Allocator, x: Action) {
    a.progress.Rejected? && x == RollBack(true) && a.row in a.granted
  }

  /** How much is assumed: nothing but fitting addresses; that nothing named "err" is granted; or besides that no lost
      answer is rolled back. */
  datatype Trust = Fitting | Sensible | Careful

  predicate Allowed(a: Allocator, x: Action, trust: Trust) {
    AddressFits(a, x) && (!trust.Fitting? ==> !LosesErr(a, x)) && (trust.Careful? ==> !GivesBackGranted(a, x))
  }

  predicate AllAllowed(a: Allocator, xs: seq<Action>, trust: Trust)
    decreases |xs|
  {
    xs == [] || (Allowed(a, xs[0], trust) && AllAllowed(Apply(a, xs[0]), xs[1..], trust))
  }

  // ---------------------------------------------------------------- where variable and row stand

  const LAST: Octets := Octets(255, 255, 255)

  /** The next octets; the last ones have none. */
  function Succ(x: Octets): Octets {
    match Carry(x.a, x.b, x.c)
    case Some((a, b, c)) => if a >= 0 && b >= 0 then Octets(a, b, c) else x
    case None => x
  }

  lemma SuccIs(x: Octets)
    requires x.Valid()
    ensures Succ(x).Valid() && if x == LAST then Succ(x) == x else Succ(x).Value() == x.Value() + 1
  {
  }

  /** Both values start with x in canonical spelling, or the subnets are used up. */
  predicate BothAt(x: Octets, s: string, t: string) {
    (x.Text() <= s && x.Text() <= t) || (x == LAST && s == "err" && t == "err")
  }

  /** next is what FindSubnet makes of previous, which starts with x. */
  predicate NextOf(x: Octets, previous: string, next: string) {
    x.Text() <= previous && NextSubnet(previous) == Text(next)
  }

  predicate ProgressOk(a: Allocator, x: Octets) {
    match a.progress
    case Ready => BothAt(x, a.lastSubnet, a.row)
    case Written(previous, next) => NextOf(x, previous, next) && a.lastSubnet == previous && a.row == next
    case Requesting(previous, next) => NextOf(x, previous, next) && a.lastSubnet == next && a.row == next
    case Rejected(previous) => NextOf(x, previous, a.row) && a.lastSubnet == a.row
    case RolledBack(previous) => NextOf(x, previous, a.lastSubnet) && a.row == previous
    case Granted(next, ip) => x.Text() <= next <= ip && a.lastSubnet == next && a.row == next
  }

  /** The actions that leave the system at the next octets: a grant, and what keeps the row ahead. */
  predicate MovesOn(a: Allocator, step: Action) {
    match (a.progress, step)
    case (Written(_, _), Crash) => true
    case (Requesting(_, _), Crash) => true
    case (Requesting(_, _), Reply(answer)) => answer.Grant?
    case (Rejected(_), Crash) => true
    case (Rejected(_), RollBack(ok)) => !ok
    case _ => false
  }

  function After(a: Allocator, step: Action, x: Octets): Octets { if MovesOn(a, step) then Succ(x) else x }

  lemma NextIsSucc(x: Octets, previous: string, next: string)
    requires x.Valid() && NextOf(x, previous, next)
    ensures next == if x == LAST then "err" else Succ(x).Text()
    ensures BothAt(Succ(x), next, next)
  {
    var y := FindSubnetIsSuccessor(x, previous);
    SuccIs(x);
    if x.Value() + 1 == SUBNETS {
      ValueIsInjective(x, LAST);
    } else {
      ValueIsInjective(y, Succ(x));
    }
  }

  lemma TextIsNotErr(x: Octets, s: string)
    requires x.Valid() && x.Text() <= s
    ensures s != "err" && SubnetNumber("err") < 0 <= SubnetNumber(s)
  {
    hide NextSubnet, Octets.Text;
    NumberOfText(x, s);
    ErrHasNoNumber();
  }

  lemma ErrHasNoNumber()
    ensures SubnetNumber("err") == -1
  {
    CutNone("err");
  }

  lemma StepKeepsProgress(a: Allocator, step: Action, x: Octets)
    requires x.Valid() && ProgressOk(a, x) && AddressFits(a, step)
    ensures After(a, step, x).Valid() && ProgressOk(Apply(a, step), After(a, step, x))
  {
    hide NextSubnet, Octets.Text, Succ;
    SuccIs(x);
    match a.progress
    case Ready => ErrPanics();
    case Written(previous, next) => NextIsSucc(x, previous, next);
    case Requesting(previous, next) => NextIsSucc(x, previous, next);
    case Rejected(previous) => NextIsSucc(x, previous, a.row);
    case _ =>
  }

  lemma {:induction false} RunKeepsProgress(a: Allocator, steps: seq<Action>, x: Octets) returns (x': Octets)
    requires x.Valid() && ProgressOk(a, x) && AllAllowed(a, steps, Fitting)
    ensures x'.Valid() && ProgressOk(Run(a, steps), x')
    decreases |steps|
  {
    if steps == [] {
      x' := x;
    } else {
      hide ProgressOk, Apply, After;
      StepKeepsProgress(a, steps[0], x);
      x' := RunKeepsProgress(Apply(a, steps[0]), steps[1..], After(a, steps[0], x));
    }
  }

  // ---------------------------------------------------------------- the granted subnets

  /** The numbers grow, strictly or not. */
  ghost predicate Growing(subnets: seq<string>, strictly: bool) {
    forall i, j :: 0 <= i < j < |subnets| ==>
      SubnetNumber(subnets[i]) <= SubnetNumber(subnets[j]) &&
      (strictly ==> SubnetNumber(subnets[i]) < SubnetNumber(subnets[j]))
  }

  ghost predicate Within(subnets: seq<string>, low: nat, high: nat) {
    forall i :: 0 <= i < |subnets| ==> low < SubnetNumber(subnets[i]) <= high && SubnetNumber(subnets[i]) < SUBNETS
  }

  /** Whether the next subnet has been granted already: a granted subnet has been given back, and nothing has moved on
      since. */
  predicate Owes(a: Allocator, step: Action, owed: bool) {
    GivesBackGranted(a, step) || (owed && !MovesOn(a, step))
  }

  /** CMS grants a subnet again, told or not. */
  predicate GrantsAgain(a: Allocator, step: Action, owed: bool) {
    owed && a.progress.Requesting? && step.Reply? && !step.answer.Refuse?
  }

  predicate NothingGrantedAgain(a: Allocator, steps: seq<Action>, owed: bool)
    decreases |steps|
  {
    steps == [] ||
    (!GrantsAgain(a, steps[0], owed) && NothingGrantedAgain(Apply(a, steps[0]), steps[1..], Owes(a, steps[0], owed)))
  }

  /** The highest number that may have been granted: CMS is one ahead after a lost answer, and while one is owed. */
  function Ceiling(a: Allocator, x: Octets, ahead: bool): nat {
    if ahead || (a.progress.Rejected? && a.row in a.granted) then x.Value() + 1 else x.Value()
  }

  predicate NextIsLast(granted: seq<string>, x: Octets) {
    x != LAST && granted != [] && granted[|granted| - 1] == Succ(x).Text()
  }

  ghost predicate Inv(a: Allocator, x: Octets, low: nat, strictly: bool, owed: bool) {
    x.Valid() && low <= x.Value() && ProgressOk(a, x) &&
    Growing(a.granted, strictly) && Within(a.granted, low, Ceiling(a, x, !strictly || owed)) &&
    (strictly && owed ==> NextIsLast(a.granted, x))
  }

  lemma OneMoreGranted(granted: seq<string>, next: string, low: nat, high: nat, strictly: bool)
    requires Growing(granted, strictly) && Within(granted, low, high)
    requires low < SubnetNumber(next) < SUBNETS
    requires high <= SubnetNumber(next) && (strictly ==> high < SubnetNumber(next))
    ensures Growing(granted + [next], strictly) && Within(granted + [next], low, SubnetNumber(next))
  {
  }

  lemma WiderWithin(granted: seq<string>, low: nat, high: nat, higher: nat)
    requires Within(granted, low, high) && high <= higher
    ensures Within(granted, low, higher)
  {
  }

  /** Each step keeps the invariant, lost answers and crashes included: the numbers never decrease, and they increase
      strictly as long as nothing is granted again. */
  lemma StepKeepsInv(a: Allocator, step: Action, x: Octets, low: nat, strictly: bool, owed: bool)
    requires Inv(a, x, low, strictly, owed) && Allowed(a, step, Sensible)
    requires strictly ==> !GrantsAgain(a, step, owed)
    ensures Inv(Apply(a, step), After(a, step, x), low, strictly, Owes(a, step, owed))
  {
    hide ProgressOk, NextSubnet, Octets.Text, Succ, Growing, Within, NextIsLast;
    StepKeepsProgress(a, step, x);
    SuccIs(x);
    if a.progress.Requesting? && step.Reply? && !step.answer.Refuse? {
      GrantKeepsInv(a, step, x, low, strictly, owed);
    } else if a.progress.Rejected? && a.row in a.granted {
      LostKeepsInv(a, step, x, low, strictly, owed);
    } else {
      NumbersKept(a, step, x, low, strictly, owed);
    }
  }

  ghost predicate InOrder(a: Allocator, x: Octets, low: nat, strictly: bool, owed: bool) {
    Growing(a.granted, strictly) && Within(a.granted, low, Ceiling(a, x, !strictly || owed)) &&
    (strictly && owed ==> NextIsLast(a.granted, x))
  }

  lemma GrantKeepsInv(a: Allocator, step: Action, x: Octets, low: nat, strictly: bool, owed: bool)
    requires Inv(a, x, low, strictly, owed) && Allowed(a, step, Sensible)
    requires strictly ==> !GrantsAgain(a, step, owed)
    requires a.progress.Requesting? && step.Reply? && !step.answer.Refuse?
    ensures InOrder(Apply(a, step), After(a, step, x), low, strictly, Owes(a, step, owed))
  {
    hide ProgressOk, NextSubnet, SubnetNumber, Octets.Text, Succ, Growing, Within;
    var next := a.progress.next;
    GrantedNumber(a, x);
    OneMoreGranted(a.granted, next, low, Ceiling(a, x, !strictly || owed), strictly);
    WiderWithin(a.granted + [next], low, SubnetNumber(next), SubnetNumber(next) + 1);
    assert next in a.granted + [next];
  }

  lemma GrantedNumber(a: Allocator, x: Octets)
    requires a.progress.Requesting? && x.Valid() && ProgressOk(a, x) && a.progress.next != "err"
    ensures SubnetNumber(a.progress.next) == x.Value() + 1 == Succ(x).Value() < SUBNETS
    ensures a.row == a.progress.next
  {
    hide NextSubnet, Octets.Text, Succ;
    SuccIs(x);
    NextIsSucc(x, a.progress.previous, a.progress.next);
    NumberOfText(Succ(x), a.progress.next);
    ValueIsInjective(Succ(x), LAST);
  }

  /** Once an answer has been lost, a rollback makes the subnet owed, and anything else leaves it behind. */
  lemma LostKeepsInv(a: Allocator, step: Action, x: Octets, low: nat, strictly: bool, owed: bool)
    requires Inv(a, x, low, strictly, owed) && a.progress.Rejected? && a.row in a.granted
    ensures InOrder(Apply(a, step), After(a, step, x), low, strictly, Owes(a, step, owed))
  {
    hide ProgressOk, NextSubnet, SubnetNumber, Octets.Text, Succ, Growing, Within;
    LostNumber(a, x, low, strictly, owed);
    WiderWithin(a.granted, low, x.Value() + 1, Succ(x).Value() + 1);
    if strictly {
      LastIs(a.granted, a.row, low, x.Value() + 1);
    }
  }

  lemma LostNumber(a: Allocator, x: Octets, low: nat, strictly: bool, owed: bool)
    requires Inv(a, x, low, strictly, owed) && a.progress.Rejected? && a.row in a.granted
    ensures x != LAST && a.row == Succ(x).Text() && Succ(x).Value() == x.Value() + 1 == SubnetNumber(a.row)
  {
    hide NextSubnet, Octets.Text, Succ, Growing;
    SuccIs(x);
    NextIsSucc(x, a.progress.previous, a.row);
    ErrHasNoNumber();
    NumberOfText(Succ(x), a.row);
  }

  lemma LastIs(granted: seq<string>, row: string, low: nat, high: nat)
    requires Growing(granted, true) && row in granted && Within(granted, low, high) && high <= SubnetNumber(row)
    ensures granted[|granted| - 1] == row
  {
    hide SubnetNumber;
    var last := |granted| - 1;
    assert SubnetNumber(granted[last]) <= high;
    forall i | 0 <= i < last ensures granted[i] != row {
      assert SubnetNumber(granted[i]) < SubnetNumber(granted[last]);
    }
  }

  lemma NumbersKept(a: Allocator, step: Action, x: Octets, low: nat, strictly: bool, owed: bool)
    requires Inv(a, x, low, strictly, owed)
    requires !(a.progress.Requesting? && step.Reply? && !step.answer.Refuse?)
    requires !(a.progress.Rejected? && a.row in a.granted)
    ensures InOrder(Apply(a, step), After(a, step, x), low, strictly, Owes(a, step, owed))
  {
    hide ProgressOk, NextSubnet, SubnetNumber, Octets.Text, Succ, Growing, Within;
    var a', x' := Apply(a, step), After(a, step, x);
    SuccIs(x);
    assert a'.granted == a.granted;
    WiderWithin(a.granted, low, Ceiling(a, x, !strictly || owed),
                Ceiling(a', x', !strictly || Owes(a, step, owed)));
  }

  /** As long as no lost answer has been rolled back, the row of a rejected create is a granted subnet exactly if the
      answer was lost. */
  lemma RejectedRowIsGrantedIffLost(a: Allocator, answer: Answer, x: Octets, low: nat)
    requires Inv(a, x, low, true, false) && a.progress.Requesting? && a.progress.next != "err" && !answer.Grant?
    ensures var a' := Apply(a, Reply(answer));
            a'.progress.Rejected? && (a'.row in a'.granted <==> answer.Lost?)
  {
    hide ProgressOk, NextSubnet, SubnetNumber, Octets.Text, Growing;
    GrantedNumber(a, x);
    assert a.row !in a.granted;
  }

  lemma {:induction false} RunKeepsInv(a: Allocator, steps: seq<Action>, x: Octets, low: nat,
                                       strictly: bool, owed: bool)
    returns (x': Octets, owed': bool)
    requires Inv(a, x, low, strictly, owed) && AllAllowed(a, steps, Sensible)
    requires strictly ==> NothingGrantedAgain(a, steps, owed)
    ensures Inv(Run(a, steps), x', low, strictly, owed')
    decreases |steps|
  {
    if steps == [] {
      x', owed' := x, owed;
    } else {
      hide Inv, Apply, After, Owes, GrantsAgain;
      StepKeepsInv(a, steps[0], x, low, strictly, owed);
      x', owed' := RunKeepsInv(Apply(a, steps[0]), steps[1..], After(a, steps[0], x), low,
                               strictly, Owes(a, steps[0], owed));
    }
  }

  // ---------------------------------------------------------------- exactly when a subnet is granted again

  lemma {:induction false} GrantedOnlyGrows(a: Allocator, steps: seq<Action>)
    ensures a.granted <= Run(a, steps).granted
    decreases |steps|
  {
    if steps != [] {
      GrantedOnlyGrows(Apply(a, steps[0]), steps[1..]);
    }
  }

  lemma PrefixGrows(granted: seq<string>, more: seq<string>)
    requires granted <= more && !Growing(granted, true)
    ensures !Growing(more, true)
  {
    hide SubnetNumber;
    var i, j :| 0 <= i < j < |granted| &&
      !(SubnetNumber(granted[i]) <= SubnetNumber(granted[j]) && SubnetNumber(granted[i]) < SubnetNumber(granted[j]));
    assert more[i] == granted[i] && more[j] == granted[j];
  }

  lemma GrantedAgainRepeats(a: Allocator, step: Action, x: Octets, low: nat)
    requires Inv(a, x, low, true, true) && GrantsAgain(a, step, true)
    ensures !Growing(Apply(a, step).granted, true)
  {
    hide NextSubnet, SubnetNumber, Octets.Text, Succ, Within;
    NextIsSucc(x, a.progress.previous, a.progress.next);
    var n := |a.granted|;
    assert Apply(a, step).granted[n - 1] == Apply(a, step).granted[n];
  }

  lemma {:induction false} AgainIsNotStrict(a: Allocator, steps: seq<Action>, x: Octets, low: nat, owed: bool)
    requires Inv(a, x, low, true, owed) && AllAllowed(a, steps, Sensible) && !NothingGrantedAgain(a, steps, owed)
    ensures !Growing(Run(a, steps).granted, true)
    decreases |steps|
  {
    hide Inv, Apply, After, Owes, GrantsAgain, Growing;
    var step := steps[0];
    var a' := Apply(a, step);
    if GrantsAgain(a, step, owed) {
      assert owed by { OwedWhenAgain(a, step, owed); }
      GrantedAgainRepeats(a, step, x, low);
      GrantedOnlyGrows(a', steps[1..]);
      PrefixGrows(a'.granted, Run(a', steps[1..]).granted);
    } else {
      StepKeepsInv(a, step, x, low, true, owed);
      AgainIsNotStrict(a', steps[1..], After(a, step, x), low, Owes(a, step, owed));
    }
  }

  lemma OwedWhenAgain(a: Allocator, step: Action, owed: bool)
    requires GrantsAgain(a, step, owed)
    ensures owed
  {
  }

  // ---------------------------------------------------------------- what follows

  /** A start: nothing granted yet, and both values start with x in canonical spelling. */
  predicate StartsAt(a: Allocator, x: Octets) {
    a.progress.Ready? && a.granted == [] && x.Valid() && x.Text() <= a.lastSubnet && x.Text() <= a.row
  }

  /** Crash-safe allocation, exactly: over creates one after the other, with refusals, lost answers, failed updates,
      failed rollbacks, failing creates and a crash and restart at any point, the subnets CMS grants are strictly
      increasing as 24-bit numbers if and only if CMS grants nothing while a subnet is owed, that is, after a lost
      answer has been rolled back and before a crash or a failed rollback has moved the row on. */
  lemma GrantedSubnetsIncreaseIff(a: Allocator, steps: seq<Action>, x: Octets)
    requires StartsAt(a, x) && AllAllowed(a, steps, Sensible)
    ensures Growing(Run(a, steps).granted, true) <==> NothingGrantedAgain(a, steps, false)
  {
    if NothingGrantedAgain(a, steps, false) {
      var x', owed := RunKeepsInv(a, steps, x, x.Value(), true, false);
    } else {
      AgainIsNotStrict(a, steps, x, x.Value(), false);
    }
  }

  /** In particular they increase if no lost answer is rolled back, and then they are pairwise different. */
  lemma GrantedSubnetsIncrease(a: Allocator, steps: seq<Action>, x: Octets)
    requires StartsAt(a, x) && AllAllowed(a, steps, Careful)
    ensures Growing(Run(a, steps).granted, true)
    ensures forall i :: 0 <= i < |Run(a, steps).granted| ==>
              x.Value() < SubnetNumber(Run(a, steps).granted[i]) < SUBNETS
    ensures forall i, j :: 0 <= i < j < |Run(a, steps).granted| ==> Run(a, steps).granted[i] != Run(a, steps).granted[j]
  {
    CarefulOwesNothing(a, steps);
    GrantedSubnetsIncreaseIff(a, steps, x);
    GrantedSubnetsNeverDecrease(a, steps, x);
  }

  lemma {:induction false} CarefulOwesNothing(a: Allocator, steps: seq<Action>)
    requires AllAllowed(a, steps, Careful)
    ensures AllAllowed(a, steps, Sensible) && NothingGrantedAgain(a, steps, false)
    decreases |steps|
  {
    if steps != [] {
      hide Apply;
      CarefulOwesNothing(Apply(a, steps[0]), steps[1..]);
    }
  }

  /** Even if lost answers are rolled back, no run goes back: the numbers never decrease. */
  lemma GrantedSubnetsNeverDecrease(a: Allocator, steps: seq<Action>, x: Octets)
    requires StartsAt(a, x) && AllAllowed(a, steps, Sensible)
    ensures Growing(Run(a, steps).granted, false)
    ensures forall i :: 0 <= i < |Run(a, steps).granted| ==>
              x.Value() < SubnetNumber(Run(a, steps).granted[i]) < SUBNETS
  {
    var x', owed := RunKeepsInv(a, steps, x, x.Value(), false, false);
  }

  /** Between two creates the variable and the stored value lead to the same next subnet, so a restart changes nothing.
      Of CMS only fitting addresses are assumed. */
  lemma RestartFindsTheSameSubnet(a: Allocator, steps: seq<Action>, x: Octets)
    requires StartsAt(a, x) && AllAllowed(a, steps, Fitting) && Run(a, steps).progress.Ready?
    ensures NextSubnet(Run(a, steps).lastSubnet) == NextSubnet(Run(a, steps).row)
    ensures NextSubnet(Run(a, steps).lastSubnet) == NextSubnet(Apply(Run(a, steps), Crash).lastSubnet)
  {
    hide NextSubnet;
    var x' := RunKeepsProgress(a, steps, x);
    SameNextAt(x', Run(a, steps));
  }

  lemma SameNextAt(x: Octets, a: Allocator)
    requires a.progress.Ready? && x.Valid() && ProgressOk(a, x)
    ensures NextSubnet(a.lastSubnet) == NextSubnet(a.row)
  {
    hide NextSubnet, Octets.Text;
    if x.Text() <= a.lastSubnet && x.Text() <= a.row {
      SameNextIffSameOctets(x, a.lastSubnet, x, a.row);
    }
  }

  lemma SameNextIffSameOctets(y: Octets, s: string, z: Octets, t: string)
    requires y.Valid() && z.Valid() && y.Text() <= s && z.Text() <= t
    ensures NextSubnet(s) == NextSubnet(t) <==> y == z
  {
    hide NextSubnet, Octets.Text;
    var y1 := FindSubnetIsSuccessor(y, s);
    var z1 := FindSubnetIsSuccessor(z, t);
    TextIsNotErr(y1, y1.Text());
    TextIsNotErr(z1, z1.Text());
    NumberOfText(y1, y1.Text());
    NumberOfText(z1, z1.Text());
    ValueIsInjective(y, z);
    if y == z {
      ValueIsInjective(y1, z1);
    }
  }

  /** After a lost answer the next create asks for the granted subnet again exactly if the rollback succeeds. */
  lemma LostAnswerRepeatsIffRolledBack(a: Allocator, x: Octets, ok: bool)
    requires a.progress.Requesting? && x.Valid() && ProgressOk(a, x)
    ensures var a' := Apply(Apply(Apply(a, Reply(Lost)), RollBack(ok)), Restore);
            a'.granted == a.granted + [a.progress.next] && a'.progress == Ready &&
            (NextSubnet(a'.lastSubnet) == Text(a.progress.next) <==> ok)
  {
    hide NextSubnet, Octets.Text, Succ;
    var previous, next := a.progress.previous, a.progress.next;
    NextIsSucc(x, previous, next);
    if next == "err" {
      ErrPanics();
    } else {
      SuccIs(x);
      SameNextIffSameOctets(x, previous, Succ(x), next);
    }
  }

  /** Once a granted subnet has been given back, the next create asks for it, and if CMS grants it, it is granted
      twice. */
  lemma GivingBackRepeats(a: Allocator, x: Octets, ip: string)
    requires x.Valid() && ProgressOk(a, x) && GivesBackGranted(a, RollBack(true))
    ensures var back := Apply(Apply(a, RollBack(true)), Restore);
            var again := Apply(Apply(Apply(back, WriteAhead(true)), Remember), Reply(Grant(ip)));
            a.row in a.granted && again.granted == a.granted + [a.row]
  {
    hide NextSubnet, Octets.Text;
    var previous := a.progress.previous;
    var back := Apply(Apply(a, RollBack(true)), Restore);
    assert back == a.(lastSubnet := previous, row := previous, progress := Ready);
  }

  lemma {:induction false} RunAppend(a: Allocator, steps: seq<Action>, more: seq<Action>)
    ensures Run(a, steps + more) == Run(Run(a, steps), more)
    decreases |steps|
  {
    if steps == [] {
      assert steps + more == more;
    } else {
      hide Apply;
      assert (steps + more)[1..] == steps[1..] + more;
      RunAppend(Apply(a, steps[0]), steps[1..], more);
    }
  }

  lemma RunPrefix(a: Allocator, steps: seq<Action>, k: nat)
    requires k < |steps|
    ensures Run(a, steps[..k + 1]) == Apply(Run(a, steps[..k]), steps[k])
    ensures Run(a, steps[..0]) == a
  {
    hide Apply;
    assert steps[..k + 1] == steps[..k] + [steps[k]];
    RunAppend(a, steps[..k], [steps[k]]);
    assert [steps[k]][1..] == [];
    assert Run(Run(a, steps[..k]), [steps[k]]) == Run(Apply(Run(a, steps[..k]), steps[k]), []);
  }

  /** Why the address has to lie in the subnet: correcting the stored value to the address keeps the two in step exactly
      if the address starts with the granted octets. */
  lemma CorrectionAgreesIffInSubnet(a: Allocator, y: Octets, z: Octets)
    requires a.progress.Granted? && a.lastSubnet == a.progress.next == y.Text() && y.Valid()
    requires z.Valid() && z.Text() <= a.progress.ip
    ensures var a' := Apply(a, Finish(true));
            NextSubnet(a'.lastSubnet) == NextSubnet(a'.row) <==> y == z
  {
    hide NextSubnet, Octets.Text;
    SameNextIffSameOctets(y, a.lastSubnet, z, a.progress.ip);
  }

  // ---------------------------------------------------------------- when the subnets are used up

  /** "err" is in both values between two creates. */
  predicate Exhausted(a: Allocator) { a.progress.Ready? && a.lastSubnet == "err" && a.row == "err" }

  /** Then nothing ever changes again: every new-subnet create panics, and a restart does not help. */
  lemma {:induction false} ExhaustionIsFinal(a: Allocator, steps: seq<Action>)
    requires Exhausted(a)
    ensures Run(a, steps) == a && NextSubnet(a.lastSubnet) == Panics
    decreases |steps|
  {
    ErrPanics();
    if steps != [] {
      assert Apply(a, steps[0]) == a;
      ExhaustionIsFinal(a, steps[1..]);
    }
  }

  /** Exactly how a run gets there: at the last octets, with "err" written ahead, by a crash or by a rollback that
      fails. */
  lemma ExhaustsExactly(a: Allocator, step: Action, x: Octets)
    requires x.Valid() && ProgressOk(a, x) && AddressFits(a, step) && !Exhausted(a)
    ensures Exhausted(Apply(a, step)) <==>
            x == LAST && ((step.Crash? && (a.progress.Written? || a.progress.Requesting? || a.progress.Rejected?)) ||
                          (step == RollBack(false) && a.progress.Rejected?))
  {
    hide NextSubnet, Octets.Text, Succ;
    SuccIs(x);
    TextIsNotErr(Succ(x), Succ(x).Text());
    match a.progress
    case Ready =>
      ErrPanics();
      if x.Text() <= a.row { TextIsNotErr(x, a.row); }
    case Written(previous, next) => NextIsSucc(x, previous, next);
    case Requesting(previous, next) => NextIsSucc(x, previous, next);
    case Rejected(previous) => NextIsSucc(x, previous, a.row);
    case Granted(next, ip) => TextIsNotErr(x, next);
    case RolledBack(previous) => TextIsNotErr(x, previous);
  }

  /** One create, with its answers. */
  function CreateSteps(answer: Answer, rollBack: bool, corrected: bool): seq<Action> {
    [WriteAhead(true), Remember, Reply(answer), RollBack(rollBack), Restore, Finish(corrected)]
  }

  lemma SixSteps(answer: Answer, rollBack: bool, corrected: bool)
    ensures var steps := CreateSteps(answer, rollBack, corrected);
            |steps| == 6 && steps[..6] == steps
  {
  }

  /** Whether a create from the last subnet, cut off by a crash after k steps, leaves "err" behind. */
  predicate LeavesErr(answer: Answer, rollBack: bool, corrected: bool, k: nat) {
    if k <= 3 then k > 0
    else match answer
         case Grant(ip) => k < 6 || !corrected || ip == "err"
         case _ => !rollBack
  }

  /** What the first k steps of a create from the last subnet come to. */
  function LastCreate(a: Allocator, answer: Answer, rollBack: bool, corrected: bool, k: nat): Allocator
    requires k <= 6
  {
    var s := a.lastSubnet;
    var ahead := a.(lastSubnet := "err", row := "err",
                    granted := if k < 3 || answer.Refuse? then a.granted else a.granted + ["err"]);
    if k == 0 then a
    else if k == 1 then ahead.(lastSubnet := s, progress := Written(s, "err"))
    else if k == 2 then ahead.(progress := Requesting(s, "err"))
    else match answer
         case Grant(ip) =>
           if k < 6 then ahead.(progress := Granted("err", ip))
           else ahead.(row := if corrected then ip else "err", progress := Ready)
         case _ =>
           if k == 3 then ahead.(progress := Rejected(s))
           else if !rollBack then ahead.(progress := Ready)
           else if k == 4 then ahead.(row := s, progress := RolledBack(s))
           else ahead.(lastSubnet := s, row := s, progress := Ready)
  }

  lemma {:induction false} LastCreateRuns(a: Allocator, answer: Answer, rollBack: bool, corrected: bool, k: nat)
    requires a.progress.Ready? && LAST.Text() <= a.lastSubnet && k <= 6
    ensures Run(a, CreateSteps(answer, rollBack, corrected)[..k]) == LastCreate(a, answer, rollBack, corrected, k)
    decreases k
  {
    hide NextSubnet, Octets.Text, Run;
    var y := FindSubnetIsSuccessor(LAST, a.lastSubnet);
    if k > 0 {
      LastCreateRuns(a, answer, rollBack, corrected, k - 1);
      RunPrefix(a, CreateSteps(answer, rollBack, corrected), k - 1);
    } else {
      RunPrefix(a, CreateSteps(answer, rollBack, corrected), 0);
    }
  }

  /** From the last subnet, for every answer of CMS, even a grant of "err": a create that runs to its end leaves the
      variable at "err" exactly if CMS grants it or the rollback fails, and then the row too unless a correction
      overwrites it; one that is cut off by a crash leaves "err" in both exactly if LeavesErr. A rollback that succeeds
      leads back to where the create started, and the next one asks for "err" again. */
  lemma LastSubnetIsUsedUpExactly(a: Allocator, answer: Answer, rollBack: bool, corrected: bool)
    requires a.progress.Ready? && LAST.Text() <= a.lastSubnet && LAST.Text() <= a.row
    ensures var steps := CreateSteps(answer, rollBack, corrected);
            var end := Run(a, steps);
            (end.lastSubnet == "err" <==> answer.Grant? || !rollBack) &&
            (Exhausted(end) <==> LeavesErr(answer, rollBack, corrected, 6)) &&
            (!answer.Grant? && rollBack ==>
               end.progress.Ready? && end.lastSubnet == a.lastSubnet == end.row &&
               NextSubnet(end.lastSubnet) == Text("err"))
    ensures forall k :: 0 <= k <= 6 ==>
              (Exhausted(Apply(Run(a, CreateSteps(answer, rollBack, corrected)[..k]), Crash)) <==>
               LeavesErr(answer, rollBack, corrected, k))
  {
    LastCreateEnds(a, answer, rollBack, corrected);
    hide NextSubnet, Octets.Text, Run, CreateSteps, LeavesErr, Exhausted;
    SixSteps(answer, rollBack, corrected);
    forall k | 0 <= k <= 6
      ensures Exhausted(Apply(Run(a, CreateSteps(answer, rollBack, corrected)[..k]), Crash)) <==>
              LeavesErr(answer, rollBack, corrected, k)
    {
      LastCreateCrashes(a, answer, rollBack, corrected, k);
    }
  }

  lemma LastCreateEnds(a: Allocator, answer: Answer, rollBack: bool, corrected: bool)
    requires a.progress.Ready? && LAST.Text() <= a.lastSubnet
    ensures var end := Run(a, CreateSteps(answer, rollBack, corrected));
            (end.lastSubnet == "err" <==> answer.Grant? || !rollBack) &&
            (Exhausted(end) <==> LeavesErr(answer, rollBack, corrected, 6)) &&
            (!answer.Grant? && rollBack ==>
               end.progress.Ready? && end.lastSubnet == a.lastSubnet == end.row &&
               NextSubnet(end.lastSubnet) == Text("err"))
  {
    hide NextSubnet, Octets.Text, Run, CreateSteps;
    var y := FindSubnetIsSuccessor(LAST, a.lastSubnet);
    TextIsNotErr(LAST, a.lastSubnet);
    LastCreateRuns(a, answer, rollBack, corrected, 6);
    SixSteps(answer, rollBack, corrected);
  }

  lemma LastCreateCrashes(a: Allocator, answer: Answer, rollBack: bool, corrected: bool, k: nat)
    requires a.progress.Ready? && LAST.Text() <= a.lastSubnet && LAST.Text() <= a.row && k <= 6
    ensures |CreateSteps(answer, rollBack, corrected)| == 6
    ensures Exhausted(Apply(Run(a, CreateSteps(answer, rollBack, corrected)[..k]), Crash)) <==>
            LeavesErr(answer, rollBack, corrected, k)
  {
    hide NextSubnet, Octets.Text, Run, CreateSteps, Apply, LastCreate, Exhausted, LeavesErr;
    TextIsNotErr(LAST, a.lastSubnet);
    TextIsNotErr(LAST, a.row);
    SixSteps(answer, rollBack, corrected);
    LastCreateRuns(a, answer, rollBack, corrected, k);
    LastCreateRow(a, answer, rollBack, corrected, k);
    CrashKeepsRow(LastCreate(a, answer, rollBack, corrected, k));
  }

  lemma LastCreateRow(a: Allocator, answer: Answer, rollBack: bool, corrected: bool, k: nat)
    requires a.lastSubnet != "err" && a.row != "err" && k <= 6
    ensures LastCreate(a, answer, rollBack, corrected, k).row == "err" <==> LeavesErr(answer, rollBack, corrected, k)
  {
  }

  lemma CrashKeepsRow(a: Allocator)
    ensures Exhausted(Apply(a, Crash)) <==> a.row == "err"
  {
  }

  /** A run that gets there and stays: at the last subnet CMS refuses "err", as it should, and the rollback fails. From
      then on every new-subnet create panics, whatever happens and however often the system restarts. */
  lemma FailedRollbackExhausts(a: Allocator, later: seq<Action>)
    requires a.progress.Ready? && LAST.Text() <= a.lastSubnet && LAST.Text() <= a.row
    ensures var end := Run(a, CreateSteps(Refuse, false, false) + later);
            Exhausted(end) && NextSubnet(end.lastSubnet) == Panics && end.granted == a.granted
  {
    var steps := CreateSteps(Refuse, false, false);
    hide CreateSteps;
    LastSubnetIsUsedUpExactly(a, Refuse, false, false);
    LastCreateRuns(a, Refuse, false, false, 6);
    SixSteps(Refuse, false, false);
    RunAppend(a, steps, later);
    ExhaustionIsFinal(Run(a, steps), later);
  }
}
