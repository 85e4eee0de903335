/**
 * The task planner: it gives each ship a task, chosen from the ship's state
 * and six team-wide "someone is doing X" flags in a fixed order of priority,
 * records it, and sets the flag of the task; finishing a task clears that
 * flag again.  Ships are identified by an id.
 */
module BeePlanner {
  import opened Wrappers

  /** `BeehaviorTeamClient.LOW_ENERGY_THRESH`. */
  const LOW_ENERGY_THRESH: real := 2000.0

  datatype BeeTask = FindEnemyFlag | ReturnToBase | FindAllyFlag | Guard | Protect | GetEnergy | GetResources | Wander

  /** A ship as the planner sees it: its team, whether it carries a flag,
      the total of the resources it holds and its energy. */
  datatype ShipView = ShipView(id: int, teamName: string, carryingFlag: bool, resources: int, energy: real)

  /** A flag as the planner sees it: its team, its speed and whether some
      ship carries it. */
  datatype FlagView = FlagView(teamName: string, speed: real, beingCarried: bool)

  /** The six team-wide flags of the planner. */
  datatype Flags = Flags(carryingEnemyFlag: bool, findingEnemyFlag: bool, guarding: bool,
                         protecting: bool, gettingResources: bool, findingAllyFlag: bool)

  /** The first flag of team `teamName`, if any. */
  function OurFlag(flags: seq<FlagView>, teamName: string): Option<FlagView>
  {
    if |flags| == 0 then None
    else if flags[0].teamName == teamName then Some(flags[0])
    else OurFlag(flags[1..], teamName)
  }

  /** The ship has just come back from gathering resources. */
  predicate JustGathered(previous: Option<BeeTask>, ship: ShipView)
  {
    previous == Some(GetResources) && ship.resources > 0
  }

  /** The choice gets as far as looking at our own flag. */
  predicate ReachesFlagTest(previous: Option<BeeTask>, ship: ShipView)
  {
    !ship.carryingFlag && !JustGathered(previous, ship) && !(ship.energy < LOW_ENERGY_THRESH)
  }

  /** The task `assignTask` chooses: the first rule that applies, in the
      order of the source; `previous` is the ship's current task, if any. */
  function ChooseTask(f: Flags, previous: Option<BeeTask>, ship: ShipView, ourFlag: Option<FlagView>): BeeTask
    requires ReachesFlagTest(previous, ship) ==> ourFlag.Some?
  {
    if ship.carryingFlag then ReturnToBase
    else if JustGathered(previous, ship) then ReturnToBase
    else if ship.energy < LOW_ENERGY_THRESH then GetEnergy
    else if ourFlag.value.speed > 0.0 && !f.findingAllyFlag && !ourFlag.value.beingCarried then FindAllyFlag
    else if !f.guarding then Guard
    else if !f.carryingEnemyFlag && !f.findingEnemyFlag && ship.energy > LOW_ENERGY_THRESH then FindEnemyFlag
    else if f.carryingEnemyFlag && !f.protecting then Protect
    else if !f.gettingResources then GetResources
    else Wander
  }

  /** The tasks that have a flag of their own. */
  predicate Flagged(t: BeeTask)
  {
    t in {FindEnemyFlag, FindAllyFlag, Guard, Protect, GetResources}
  }

  /** The flag of a flagged task. */
  function FlagOf(f: Flags, t: BeeTask): bool
    requires Flagged(t)
  {
    match t
    case FindEnemyFlag => f.findingEnemyFlag
    case FindAllyFlag => f.findingAllyFlag
    case Guard => f.guarding
    case Protect => f.protecting
    case GetResources => f.gettingResources
  }

  /** The flag of task `t` set to `value`; other tasks change nothing. */
  function WithTaskFlag(f: Flags, t: BeeTask, value: bool): Flags
  {
    match t
    case FindEnemyFlag => f.(findingEnemyFlag := value)
    case FindAllyFlag => f.(findingAllyFlag := value)
    case Guard => f.(guarding := value)
    case Protect => f.(protecting := value)
    case GetResources => f.(gettingResources := value)
    case _ => f
  }

  /** The flags after `assignTask` chose `t`: a ship carrying a flag marks the
      enemy flag as carried and no longer sought, then the task's flag is set. */
  function AssignFlags(f: Flags, t: BeeTask, carrying: bool): Flags
  {
    var g := if carrying then f.(findingEnemyFlag := false, carryingEnemyFlag := true) else f;
    WithTaskFlag(g, t, true)
  }

  /** The flags after `finishTask` of a ship whose task is `t`. */
  function FinishFlags(f: Flags, t: BeeTask): Flags
  {
    WithTaskFlag(f, t, false)
  }

  // ---------------------------------------------------------------------
  // Properties of the choice

  /** The first flag of the team is a flag of the team with none of the team's before it;
      there is none exactly when no flag belongs to the team. */
  lemma {:induction false} OurFlagIsFirst(flags: seq<FlagView>, teamName: string)
    ensures OurFlag(flags, teamName).None? <==> forall i :: 0 <= i < |flags| ==> flags[i].teamName != teamName
    ensures OurFlag(flags, teamName).Some? ==>
      exists i :: 0 <= i < |flags| && flags[i] == OurFlag(flags, teamName).value && flags[i].teamName == teamName &&
        forall j :: 0 <= j < i ==> flags[j].teamName != teamName
  {
    if |flags| > 0 && flags[0].teamName != teamName {
      OurFlagIsFirst(flags[1..], teamName);
      if OurFlag(flags, teamName).Some? {
        var i :| 0 <= i < |flags[1..]| && flags[1..][i] == OurFlag(flags, teamName).value && flags[1..][i].teamName == teamName &&
          forall j :: 0 <= j < i ==> flags[1..][j].teamName != teamName;
        assert flags[i + 1] == flags[1..][i];
        assert forall j :: 1 <= j < i + 1 ==> flags[j] == flags[1..][j - 1];
      } else {
        assert forall i :: 1 <= i < |flags| ==> flags[i] == flags[1..][i - 1];
      }
    }
  }

  /** A ship that carries a flag always heads back to base. */
  lemma CarrierReturns(f: Flags, previous: Option<BeeTask>, ship: ShipView, ourFlag: Option<FlagView>)
    requires ReachesFlagTest(previous, ship) ==> ourFlag.Some?
    requires ship.carryingFlag
    ensures ChooseTask(f, previous, ship, ourFlag) == ReturnToBase
    ensures AssignFlags(f, ReturnToBase, true) == f.(findingEnemyFlag := false, carryingEnemyFlag := true)
  {
  }

  /** Energy: a ship is sent for energy exactly when it is below the threshold
      and neither carries a flag nor has just gathered resources; a ship is
      only sent for the enemy flag with energy strictly above the threshold. */
  lemma EnergyRules(f: Flags, previous: Option<BeeTask>, ship: ShipView, ourFlag: Option<FlagView>)
    requires ReachesFlagTest(previous, ship) ==> ourFlag.Some?
    ensures ChooseTask(f, previous, ship, ourFlag) == GetEnergy <==>
      !ship.carryingFlag && !JustGathered(previous, ship) && ship.energy < LOW_ENERGY_THRESH
    ensures ChooseTask(f, previous, ship, ourFlag) == FindEnemyFlag ==> ship.energy > LOW_ENERGY_THRESH
  {
  }

  /** A flagged task is only chosen while its flag is clear, except that
      the enemy flag is also never sought while it is carried. */
  lemma TakenTasksNotChosen(f: Flags, previous: Option<BeeTask>, ship: ShipView, ourFlag: Option<FlagView>)
    requires ReachesFlagTest(previous, ship) ==> ourFlag.Some?
    ensures var t := ChooseTask(f, previous, ship, ourFlag); Flagged(t) ==> !FlagOf(f, t)
    ensures f.guarding ==> ChooseTask(f, previous, ship, ourFlag) != Guard
    ensures f.carryingEnemyFlag || f.findingEnemyFlag ==> ChooseTask(f, previous, ship, ourFlag) != FindEnemyFlag
    ensures ChooseTask(f, previous, ship, ourFlag) == Protect ==> f.carryingEnemyFlag
  {
  }

  /** A ship wanders only when every other rule fails. */
  lemma WanderIsLastResort(f: Flags, previous: Option<BeeTask>, ship: ShipView, ourFlag: Option<FlagView>)
    requires ReachesFlagTest(previous, ship) ==> ourFlag.Some?
    ensures ChooseTask(f, previous, ship, ourFlag) == Wander <==>
      ReachesFlagTest(previous, ship) &&
      !(ourFlag.value.speed > 0.0 && !f.findingAllyFlag && !ourFlag.value.beingCarried) &&
      f.guarding && (f.carryingEnemyFlag || f.findingEnemyFlag || ship.energy <= LOW_ENERGY_THRESH) &&
      (f.carryingEnemyFlag ==> f.protecting) && f.gettingResources
  {
  }

  /** Assigning a flagged task sets exactly its flag (apart from the flag
      carrier's own update); the other tasks leave the flags as they were. */
  lemma AssignSetsOwnFlag(f: Flags, t: BeeTask)
    ensures Flagged(t) ==> FlagOf(AssignFlags(f, t, false), t)
    ensures Flagged(t) ==> forall u :: Flagged(u) && u != t ==> FlagOf(AssignFlags(f, t, false), u) == FlagOf(f, u)
    ensures AssignFlags(f, t, false).carryingEnemyFlag == f.carryingEnemyFlag
    ensures !Flagged(t) ==> AssignFlags(f, t, false) == f
  {
  }

  /** Finishing clears only the flag of the finished task. */
  lemma FinishClearsOwnFlag(f: Flags, t: BeeTask)
    ensures Flagged(t) ==> !FlagOf(FinishFlags(f, t), t)
    ensures Flagged(t) ==> forall u :: Flagged(u) && u != t ==> FlagOf(FinishFlags(f, t), u) == FlagOf(f, u)
    ensures FinishFlags(f, t).carryingEnemyFlag == f.carryingEnemyFlag
    ensures !Flagged(t) ==> FinishFlags(f, t) == f
  {
  }

  /** Finishing a task undoes assigning it: a ship that took a task whose
      flag was clear and then finished it leaves the flags as they were. */
  lemma FinishUndoesAssign(f: Flags, t: BeeTask)
    requires Flagged(t) ==> !FlagOf(f, t)
    ensures FinishFlags(AssignFlags(f, t, false), t) == f
  {
  }

  /** The task stored for `id`, if any: `assignedTasks.get`. */
  function Lookup(m: map<int, BeeTask>, id: int): Option<BeeTask>
  {
    if id in m then Some(m[id]) else None
  }

  /** The first flag of the ship's team, as `assignTask`'s opening loop finds it. */
  method FindOurFlag(flags: seq<FlagView>, teamName: string) returns (ourFlag: Option<FlagView>)
    ensures ourFlag == OurFlag(flags, teamName)
  {
    ourFlag := None;
    var i := 0;
    while i < |flags|
      invariant 0 <= i <= |flags|
      invariant OurFlag(flags, teamName) == OurFlag(flags[i..], teamName)
    {
      if flags[i].teamName == teamName {
        ourFlag := Some(flags[i]);
        return;
      }
      assert flags[i..][1..] == flags[i + 1..];
      i := i + 1;
    }
  }

  class BeePlanner {
    var assignedTasks: map<int, BeeTask>
    var isFinished: map<int, bool>
    var isCarryingEnemyFlag: bool
    var isFindingEnemyFlag: bool
    var isGuarding: bool
    var isProtecting: bool
    var isGettingResources: bool
    var isFindingAllyFlag: bool

    /** Every ship with a task has a finished mark. */
    predicate Valid()
      reads this
    {
      assignedTasks.Keys == isFinished.Keys
    }

    /** The six flags as a value. */
    function State(): Flags
      reads this
    {
      Flags(isCarryingEnemyFlag, isFindingEnemyFlag, isGuarding, isProtecting, isGettingResources, isFindingAllyFlag)
    }

    constructor ()
      ensures Valid() && assignedTasks == map[] && isFinished == map[]
      ensures State() == Flags(false, false, false, false, false, false)
    {
      assignedTasks := map[];
      isFinished := map[];
      isCarryingEnemyFlag := false;
      isFindingEnemyFlag := false;
      isGuarding := false;
      isProtecting := false;
      isGettingResources := false;
      isFindingAllyFlag := false;
    }

    /** `assignTask`: chooses, records and flags the ship's task; `flags` are
        the arena's flags.  Our own flag must exist when the choice gets as
        far as looking at it. */
    method AssignTask(ship: ShipView, flags: seq<FlagView>)
      requires ReachesFlagTest(Lookup(assignedTasks, ship.id), ship) ==> OurFlag(flags, ship.teamName).Some?
      modifies this
      ensures
        var t := ChooseTask(old(State()), old(Lookup(assignedTasks, ship.id)), ship, OurFlag(flags, ship.teamName));
        && assignedTasks == old(assignedTasks)[ship.id := t]
        && isFinished == old(isFinished)[ship.id := false]
        && State() == AssignFlags(old(State()), t, ship.carryingFlag)
      ensures old(Valid()) ==> Valid()
    {
      var ourFlag := FindOurFlag(flags, ship.teamName);
      var assignedTask := ChooseAssignedTask(ship, ourFlag);
      assignedTasks := assignedTasks[ship.id := assignedTask];
      isFinished := isFinished[ship.id := false];
      SetTaskFlag(assignedTask, true);
    }

    /** The `if` chain of `assignTask`: picks the task and, for a flag
        carrier, marks the enemy flag as carried and no longer sought. */
    method ChooseAssignedTask(ship: ShipView, ourFlag: Option<FlagView>) returns (assignedTask: BeeTask)
      requires ReachesFlagTest(Lookup(assignedTasks, ship.id), ship) ==> ourFlag.Some?
      modifies this
      ensures assignedTasks == old(assignedTasks) && isFinished == old(isFinished)
      ensures assignedTask == ChooseTask(old(State()), Lookup(assignedTasks, ship.id), ship, ourFlag)
      ensures State() == if ship.carryingFlag then old(State()).(findingEnemyFlag := false, carryingEnemyFlag := true)
                         else old(State())
    {
      assignedTask := Wander;
      if ship.carryingFlag {
        assignedTask := ReturnToBase;
        isFindingEnemyFlag := false;
        isCarryingEnemyFlag := true;
      } else if ship.id in assignedTasks && assignedTasks[ship.id] == GetResources && ship.resources > 0 {
        assignedTask := ReturnToBase;
      } else if ship.energy < LOW_ENERGY_THRESH {
        assignedTask := GetEnergy;
      } else if ourFlag.value.speed > 0.0 && !isFindingAllyFlag && !ourFlag.value.beingCarried {
        assignedTask := FindAllyFlag;
      } else if !isGuarding {
        assignedTask := Guard;
      } else if !isCarryingEnemyFlag && !isFindingEnemyFlag && ship.energy > LOW_ENERGY_THRESH {
        assignedTask := FindEnemyFlag;
      } else if isCarryingEnemyFlag && !isProtecting {
        assignedTask := Protect;
      } else if !isGettingResources {
        assignedTask := GetResources;
      }
    }

    /** The `switch` of `assignTask` (`value` true) and of `finishTask`
        (`value` false): sets the flag of task `t`, if it has one. */
    method SetTaskFlag(t: BeeTask, value: bool)
      modifies this
      ensures State() == WithTaskFlag(old(State()), t, value)
      ensures assignedTasks == old(assignedTasks) && isFinished == old(isFinished)
    {
      match t {
        case FindEnemyFlag => isFindingEnemyFlag := value;
        case ReturnToBase =>
        case FindAllyFlag => isFindingAllyFlag := value;
        case Guard => isGuarding := value;
        case Protect => isProtecting := value;
        case GetEnergy =>
        case GetResources => isGettingResources := value;
        case Wander =>
      }
    }

    /** `finishTask`: marks the ship finished and clears its task's flag.
        The ship must have a task (the source switches on it). */
    method FinishTask(ship: ShipView)
      requires ship.id in assignedTasks
      modifies this
      ensures assignedTasks == old(assignedTasks)
      ensures isFinished == old(isFinished)[ship.id := true]
      ensures State() == FinishFlags(old(State()), old(assignedTasks[ship.id]))
      ensures old(Valid()) ==> Valid()
    {
      var finishedTask := assignedTasks[ship.id];
      isFinished := isFinished[ship.id := true];
      SetTaskFlag(finishedTask, false);
    }

    /** The ship needs a new task: it has none, has finished it, or carries a flag. */
    predicate NeedsTask(ship: ShipView)
      reads this
      requires Valid()
    {
      ship.id !in assignedTasks || isFinished[ship.id] || ship.carryingFlag
    }

    /** `getTask`: reassigns when the ship needs a new task, then returns
        the ship's task. */
    method GetTask(ship: ShipView, flags: seq<FlagView>) returns (task: BeeTask)
      requires Valid()
      requires NeedsTask(ship) && ReachesFlagTest(Lookup(assignedTasks, ship.id), ship) ==>
        OurFlag(flags, ship.teamName).Some?
      modifies this
      ensures Valid() && ship.id in assignedTasks && task == assignedTasks[ship.id]
      ensures old(NeedsTask(ship)) ==>
        var t := ChooseTask(old(State()), old(Lookup(assignedTasks, ship.id)), ship, OurFlag(flags, ship.teamName));
        && assignedTasks == old(assignedTasks)[ship.id := t]
        && isFinished == old(isFinished)[ship.id := false]
        && State() == AssignFlags(old(State()), t, ship.carryingFlag)
      ensures !old(NeedsTask(ship)) ==>
        assignedTasks == old(assignedTasks) && isFinished == old(isFinished) && State() == old(State())
    {
      if ship.id !in assignedTasks || isFinished[ship.id] || ship.carryingFlag {
        AssignTask(ship, flags);
      }
      task := assignedTasks[ship.id];
    }

    /** `setCarryingEnemyFlag`. */
    method SetCarryingEnemyFlag(carryingEnemyFlag: bool)
      modifies this
      ensures State() == old(State()).(carryingEnemyFlag := carryingEnemyFlag)
      ensures assignedTasks == old(assignedTasks) && isFinished == old(isFinished)
    {
      isCarryingEnemyFlag := carryingEnemyFlag;
    }

    /** `shipCanShoot`: a ship that seeks the enemy flag, gathers resources,
        carries a flag or is at or below the energy threshold may not shoot;
        any other ship may. */
    function ShipCanShoot(ship: ShipView): (canShoot: bool)
      reads this
      ensures !canShoot <==>
        Lookup(assignedTasks, ship.id) == Some(FindEnemyFlag) || Lookup(assignedTasks, ship.id) == Some(GetResources) ||
        ship.carryingFlag || ship.energy <= LOW_ENERGY_THRESH
    {
      var canShoot := Lookup(assignedTasks, ship.id) != Some(FindEnemyFlag);
      var canShoot := canShoot && !ship.carryingFlag;
      var canShoot := canShoot && ship.energy > LOW_ENERGY_THRESH;
      canShoot && Lookup(assignedTasks, ship.id) != Some(GetResources)
    }
  }
}
