/**
 * DBSelection.java: the builder behind findAll() and findOne().  A Selection
 * holds one filter (mFilter), the selection it closes into (mCloseTarget)
 * and whether its filter has already been handed to that one (mAppended).
 * within and and open a child selection; a leaf filter set under a
 * WithinFilter closes back up through every enclosing WithinFilter; commit
 * hands the unappended filters up to the root, which runs the tree over its
 * view and returns a view of the accepted members.
 *
 * The chain of selections from one selection up to its root is described by
 * State(): one Level (filter and appended flag) per selection, the selection
 * itself first.  The pure functions below say what each builder call does to
 * that sequence; the methods do it through the objects.
 */
module Selections {
  import opened Bytes
  import opened Text
  import opened Results
  import opened Values
  import opened Chains
  import opened Walker
  import opened Filters
  import opened Queries
  import opened Store

  /** One selection of a chain: its mFilter and its mAppended. */
  datatype Level = Level(filter: Option<Filter>, appended: bool)

  predicate IsWithin(f: Option<Filter>)
  {
    f.Some? && f.value.Within?
  }

  /**
   * ((AppendableFilter) target).append(f): a WithinFilter takes f as its
   * only inner filter, the And and Or stubs add it to their list; a missing
   * target throws NullPointerException, any other filter ClassCastException.
   */
  function Appended(target: Option<Filter>, f: Option<Filter>): Result<Filter>
  {
    match target
    case None => Err(NullPointer)
    case Some(t) =>
      match t
      case Within(key, _, m) => Ok(Within(key, f, m))
      case And(parts, index, m) => Ok(And(parts + [f], index, m))
      case Or(parts) => Ok(Or(parts + [f]))
      case _ => Err(ClassCast)
  }

  /**
   * close() on the first selection of ls: its filter appended to its close
   * target, marked appended, and the close repeated from the target while the
   * target's own target holds a WithinFilter.  The new levels and the index
   * of the selection returned.
   */
  function CloseUp(ls: seq<Level>): (r: Result<(seq<Level>, nat)>)
    requires |ls| >= 2
    ensures r.Ok? ==> |r.value.0| == |ls| && r.value.1 < |ls|
    decreases |ls|
  {
    match Appended(ls[1].filter, ls[0].filter)
    case Err(e) => Err(e)
    case Ok(g) =>
      var head := Level(ls[0].filter, true);
      var rest := [Level(Some(g), ls[1].appended)] + ls[2..];
      if |ls| > 2 && IsWithin(ls[2].filter) then
        match CloseUp(rest)
        case Err(e) => Err(e)
        case Ok((rs, j)) => Ok(([head] + rs, j + 1))
      else
        Ok(([head] + rest, 1))
  }

  /** setFilter(f) on the first selection of ls: the filter set, then a close when the target holds a WithinFilter. */
  function SetFilterOutcome(ls: seq<Level>, f: Filter): (r: Result<(seq<Level>, nat)>)
    requires |ls| >= 1
    ensures r.Ok? ==> |r.value.0| == |ls| && r.value.1 < |ls|
  {
    var staged := [Level(Some(f), ls[0].appended)] + ls[1..];
    if |ls| >= 2 && IsWithin(ls[1].filter) then CloseUp(staged) else Ok((staged, 0))
  }

  /**
   * commit() on the first selection of ls, up to the root: each selection
   * not yet appended appends its filter to its target.  The levels the
   * root's commit then sees.
   */
  function Committed(ls: seq<Level>): Result<seq<Level>>
    requires |ls| >= 1
    decreases |ls|
  {
    if |ls| == 1 then Ok(ls)
    else
      match HandedUp(ls)
      case Err(e) => Err(e)
      case Ok(next) =>
        match Committed(next)
        case Err(e) => Err(e)
        case Ok(rs) => Ok([ls[0]] + rs)
  }

  /**
   * One commit() step on the first selection of ls: unless already
   * appended, its filter is appended to its target's.  The levels from the
   * target up, as the target's own commit() sees them.
   */
  function HandedUp(ls: seq<Level>): (r: Result<seq<Level>>)
    requires |ls| >= 2
    ensures r.Ok? ==> |r.value| == |ls| - 1 && r.value[1..] == ls[2..]
    ensures r.Ok? && ls[0].appended ==> r.value == ls[1..]
  {
    if ls[0].appended then Ok(ls[1..])
    else
      match Appended(ls[1].filter, ls[0].filter)
      case Err(e) => Err(e)
      case Ok(g) => Ok([Level(Some(g), ls[1].appended)] + ls[2..])
  }

  /**
   * The filter the root's commit runs: wrapped in a fresh OnlyOneFilter for
   * findOne; for findAll, setObserver on a missing filter throws.
   */
  function Launched(f: Option<Filter>, onlyOne: bool): (r: Result<Filter>)
    ensures onlyOne ==> r == Ok(OnlyOne(f, true))
    ensures !onlyOne ==> (r.Ok? <==> f.Some?) && (r.Ok? ==> r.value == f.value)
  {
    if onlyOne then Ok(OnlyOne(f, true))
    else if f.None? then Err(NullPointer)
    else Ok(f.value)
  }

  /** applyFilter on db with flt: the positions its observer was told of, or the failure. */
  ghost function Applied(db: YashoDB, flt: Filter): Result<(seq<int>, Filter)>
    reads db, db.file, db.query
  {
    if db.kind != COLLECTION then Err(Usage) else Run(db.file.data, db.Visited(db.file.data), flt, [])
  }

  /**
   * What commit() on the first selection of ls comes to: the chain
   * committed, the root's filter launched and applied to db; the positions
   * accepted, or the first failure.
   */
  ghost function CommitOutcome(db: YashoDB, onlyOne: bool, ls: seq<Level>): Result<seq<int>>
    requires |ls| >= 1
    reads db, db.file, db.query
  {
    match Committed(ls)
    case Err(e) => Err(e)
    case Ok(cs) =>
      match Launched(cs[|cs| - 1].filter, onlyOne)
      case Err(e) => Err(e)
      case Ok(flt) =>
        match Applied(db, flt)
        case Err(e) => Err(e)
        case Ok((accepted, _)) => Ok(accepted)
  }

  /** v is a view of db holding exactly the query of the accepted positions. */
  ghost predicate ViewOf(v: YashoDB, db: YashoDB, accepted: seq<int>)
    reads v, v.query, v.Side()
  {
    v.Valid() && v.parent == db && v.kind == db.kind && v.query != null && v.query.added == accepted
  }

  /** Every position applyFilter can accept is a long, and a query can hold one more than all of them. */
  ghost predicate Addable(ms: seq<Entry>)
  {
    8 * (|ms| + 1) < TWO_63 && forall i :: 0 <= i < |ms| ==> IsLong(ms[i].at)
  }

  // ---------------------------------------------------------------- what the builder calls do

  /**
   * close() appends each closed selection's filter, as it stands once its
   * own children have closed into it, to the selection above; it marks the
   * closed selections appended, goes on exactly while the next target up
   * holds a WithinFilter, returns the selection where it stopped and leaves
   * everything above it alone.
   */
  lemma {:induction false} CloseUpSpec(ls: seq<Level>)
    requires |ls| >= 2
    ensures CloseUp(ls).Ok? ==> ClosedUp(ls, CloseUp(ls).value.0, CloseUp(ls).value.1)
    decreases |ls|
  {
    match Appended(ls[1].filter, ls[0].filter)
    case Err(e) =>
    case Ok(g) =>
      var rest := [Level(Some(g), ls[1].appended)] + ls[2..];
      if |ls| > 2 && IsWithin(ls[2].filter) {
        CloseUpSpec(rest);
        if CloseUp(rest).Ok? {
          var (rs', j') := CloseUp(rest).value;
          ClosedUpLift(ls, g, rs', j');
        }
      }
  }

  /**
   * rs and j are what closing up from the first selection of ls leaves: the
   * selections 1 to j each received the filter below them, all but the last
   * of them are marked appended and have a WithinFilter above, the close
   * stopped at j because the next target up holds no WithinFilter, and
   * nothing above j changed.
   */
  ghost predicate ClosedUp(ls: seq<Level>, rs: seq<Level>, j: int)
    requires |ls| >= 2
  {
    && 1 <= j < |ls| && |rs| == |ls|
    && rs[0] == Level(ls[0].filter, true)
    && rs[j + 1..] == ls[j + 1..]
    && rs[j].appended == ls[j].appended
    && (forall k :: 1 <= k < j ==> rs[k].appended && IsWithin(ls[k + 1].filter))
    && (forall k :: 1 <= k <= j ==> rs[k].filter.Some? && Appended(ls[k].filter, rs[k - 1].filter) == Ok(rs[k].filter.value))
    && (j + 1 == |ls| || !IsWithin(ls[j + 1].filter))
  }

  /** A close that went on from the target lifts to one from the selection below it. */
  lemma ClosedUpLift(ls: seq<Level>, g: Filter, rs': seq<Level>, j': int)
    requires |ls| > 2 && IsWithin(ls[2].filter) && Appended(ls[1].filter, ls[0].filter) == Ok(g)
    requires ClosedUp([Level(Some(g), ls[1].appended)] + ls[2..], rs', j')
    ensures ClosedUp(ls, [Level(ls[0].filter, true)] + rs', j' + 1)
  {
    var rest := [Level(Some(g), ls[1].appended)] + ls[2..];
    var rs := [Level(ls[0].filter, true)] + rs';
    var j := j' + 1;
    forall k | 1 <= k <= j
      ensures rs[k].filter.Some? && Appended(ls[k].filter, rs[k - 1].filter) == Ok(rs[k].filter.value)
    {
      if k == 1 {
        assert rs[1] == rs'[0];
      } else {
        assert rs[k] == rs'[k - 1] && rs[k - 1] == rs'[k - 2] && ls[k] == rest[k - 1];
      }
    }
    forall k | 1 <= k < j
      ensures rs[k].appended && IsWithin(ls[k + 1].filter)
    {
      if k > 1 {
        assert rs[k] == rs'[k - 1] && ls[k + 1] == rest[k];
      }
    }
    assert rs[j + 1..] == rs'[j' + 1..];
    assert ls[j + 1..] == rest[j' + 1..];
    assert rs[j] == rs'[j'] && ls[j] == rest[j'];
    assert j + 1 < |ls| ==> ls[j + 1] == rest[j' + 1];
    assert 1 <= j < |ls| && |rs| == |ls|;
    assert rs[0] == Level(ls[0].filter, true);
    assert rs[j + 1..] == ls[j + 1..];
    assert rs[j].appended == ls[j].appended;
    assert j + 1 == |ls| || !IsWithin(ls[j + 1].filter);
    assert ClosedUp(ls, rs, j);
  }

  /** Under nothing but WithinFilters, a close goes all the way up and returns the root. */
  lemma {:induction false} CloseUpWithins(ls: seq<Level>)
    requires |ls| >= 2 && forall k :: 1 <= k < |ls| ==> IsWithin(ls[k].filter)
    ensures CloseUp(ls).Ok? && CloseUp(ls).value.1 == |ls| - 1
    decreases |ls|
  {
    var g := Appended(ls[1].filter, ls[0].filter).value;
    var rest := [Level(Some(g), ls[1].appended)] + ls[2..];
    if |ls| > 2 {
      assert IsWithin(ls[2].filter);
      forall k | 1 <= k < |rest|
        ensures IsWithin(rest[k].filter)
      {
        assert rest[k] == ls[k + 1];
      }
      CloseUpWithins(rest);
    }
  }

  /**
   * commit() changes no appended flag and no filter but those of targets
   * below a selection not yet appended: each such target receives the
   * filter of the selection under it, as that filter stands after its own
   * commit step; a selection already appended hands nothing up again.
   */
  lemma {:induction false} CommittedSpec(ls: seq<Level>)
    requires |ls| >= 1
    ensures Committed(ls).Ok? ==>
      var rs := Committed(ls).value;
      && |rs| == |ls| && rs[0] == ls[0]
      && (forall k :: 0 <= k < |ls| ==> rs[k].appended == ls[k].appended)
      && (forall k :: 1 <= k < |ls| ==>
            if ls[k - 1].appended then rs[k].filter == ls[k].filter
            else rs[k].filter.Some? && Appended(ls[k].filter, rs[k - 1].filter) == Ok(rs[k].filter.value))
    decreases |ls|
  {
    if |ls| > 1 && Committed(ls).Ok? {
      var rs := Committed(ls).value;
      var next := HandedUp(ls).value;
      assert Committed(next).Ok? && rs == [ls[0]] + Committed(next).value;
      CommittedSpec(next);
      var rs' := Committed(next).value;
      forall k | 0 <= k < |ls|
        ensures rs[k].appended == ls[k].appended
      {
        if k > 0 {
          assert rs[k] == rs'[k - 1] && next[k - 1].appended == ls[k].appended;
        }
      }
      forall k | 1 <= k < |ls|
        ensures if ls[k - 1].appended then rs[k].filter == ls[k].filter
                else rs[k].filter.Some? && Appended(ls[k].filter, rs[k - 1].filter) == Ok(rs[k].filter.value)
      {
        assert rs[k] == rs'[k - 1];
        if k == 1 {
          assert rs'[0] == next[0];
        } else {
          assert rs[k - 1] == rs'[k - 2] && next[k - 1] == ls[k] && next[k - 2].appended == ls[k - 1].appended;
        }
      }
    }
  }

  /** Every position picked from members whose offsets are longs is a long, and there are no more of them. */
  lemma {:induction false} PickedLongs(qs: seq<int>, ms: seq<Entry>)
    requires Picked(qs, ms) && forall j :: 0 <= j < |ms| ==> IsLong(ms[j].at)
    ensures |qs| <= |ms| && forall i :: 0 <= i < |qs| ==> IsLong(qs[i])
    decreases |ms|
  {
    if qs != [] {
      if qs[0] == ms[0].at && Picked(qs[1..], ms[1..]) {
        PickedLongs(qs[1..], ms[1..]);
        forall i | 0 <= i < |qs|
          ensures IsLong(qs[i])
        {
          if i > 0 {
            assert qs[i] == qs[1..][i - 1];
          }
        }
      } else {
        PickedLongs(qs, ms[1..]);
      }
    }
  }

  // ---------------------------------------------------------------- the objects

  /** A DBSelection: the view findAll() or findOne() was called on (mDb), and which of the two (mOnlyOne). */
  class DBSelection {
    const db: YashoDB
    const onlyOne: bool

    /** findAll() is new DBSelection(this, false), findOne() new DBSelection(this, true). */
    constructor (db: YashoDB, onlyOne: bool)
      ensures this.db == db && this.onlyOne == onlyOne
    {
      this.db := db;
      this.onlyOne := onlyOne;
    }

    /** selection(): a root selection with no filter. */
    method NewSelection() returns (s: Selection)
      ensures fresh(s) && s.Linked() && s.owner == this && s.closeTarget == null
      ensures s.State() == [Level(None, false)]
    {
      s := new Selection.Root(this);
    }
  }

  class Selection {
    /** The DBSelection this inner-class instance belongs to. */
    const owner: DBSelection
    /** mCloseTarget */
    const closeTarget: Selection?
    /** How far this selection lies below its root. */
    ghost const depth: nat
    /** mFilter */
    var filter: Option<Filter>
    /** mAppended */
    var appended: bool

    /** The close targets lead up to a root, all of the same DBSelection. */
    ghost predicate Linked()
      decreases depth
    {
      closeTarget == null || (closeTarget.depth < depth && closeTarget.owner == owner && closeTarget.Linked())
    }

    /** The selections above this one. */
    ghost function Targets(): set<Selection>
      requires Linked()
      decreases depth
    {
      if closeTarget == null then {} else {closeTarget} + closeTarget.Targets()
    }

    /** This selection, its close target, and so on up to the root. */
    ghost function Line(): (r: seq<Selection>)
      requires Linked()
      ensures |r| >= 1 && r[0] == this
      decreases depth
    {
      [this] + (if closeTarget == null then [] else closeTarget.Line())
    }

    /** The filter and appended flag of each selection of Line(). */
    ghost function State(): (r: seq<Level>)
      requires Linked()
      reads this, Targets()
      ensures |r| == |Line()| && r[0] == Level(filter, appended)
      decreases depth
    {
      [Level(filter, appended)] + (if closeTarget == null then [] else closeTarget.State())
    }

    /** new Selection() */
    constructor Root(owner: DBSelection)
      ensures this.owner == owner && closeTarget == null && depth == 0
      ensures filter == None && !appended && Linked()
    {
      this.owner := owner;
      closeTarget := null;
      depth := 0;
      filter := None;
      appended := false;
    }

    /** new Selection(closeTarget) */
    constructor Child(target: Selection)
      requires target.Linked()
      ensures owner == target.owner && closeTarget == target && depth == target.depth + 1
      ensures filter == None && !appended && Linked()
    {
      owner := target.owner;
      closeTarget := target;
      depth := target.depth + 1;
      filter := None;
      appended := false;
    }

    /** append(f): the filter handed to this selection's own filter. */
    method Append(f: Option<Filter>) returns (r: Result<()>)
      modifies this
      ensures appended == old(appended)
      ensures match Appended(old(filter), f)
        case Err(e) => r == Err(e) && unchanged(this)
        case Ok(g) => r == Ok(()) && filter == Some(g)
    {
      var put := Appended(filter, f);
      if put.Err? {
        return Err(put.error);
      }
      filter := Some(put.value);
      r := Ok(());
    }

    /**
     * setFilter(f), which biggerThan, smallerThan, equalsTo, notEqualsTo,
     * biggerThanOrEqualTo, smallerThanOrEqualTo, isNull and isNotNull call
     * with the leaf filter they build.
     */
    method SetFilter(f: Filter) returns (r: Result<Selection>)
      requires Linked()
      modifies this, Targets()
      ensures match SetFilterOutcome(old(State()), f)
        case Err(e) => r == Err(e)
        case Ok((ls, j)) => State() == ls && r == Ok(Line()[j])
    {
      TargetsBelow(this);
      filter := Some(f);
      if closeTarget != null && IsWithin(closeTarget.filter) {
        r := Close();
      } else {
        r := Ok(this);
      }
    }

    /** count(key): the operators of the returned CountSelection install a CountFilter here. */
    method Count(key: JString) returns (c: CountSelection)
      ensures fresh(c) && c.selection == this && c.key == key
    {
      c := new CountSelection(this, key);
    }

    /** within(key): this selection's filter becomes a WithinFilter, and a child that closes into it is returned. */
    method Within(key: JString) returns (child: Selection)
      requires Linked()
      modifies this
      ensures State() == [Level(Some(Filter.Within(key, None, false)), old(appended))] + old(State())[1..]
      ensures fresh(child) && child.Linked() && child.closeTarget == this
      ensures child.State() == [Level(None, false)] + State()
    {
      TargetsBelow(this);
      filter := Some(Filter.Within(key, None, false));
      child := new Selection.Child(this);
    }

    /** and(): this selection's filter becomes an (unfinished) AndFilter, and a child that closes into it is returned. */
    method And() returns (child: Selection)
      requires Linked()
      modifies this
      ensures State() == [Level(Some(Filter.And([], 0, false)), old(appended))] + old(State())[1..]
      ensures fresh(child) && child.Linked() && child.closeTarget == this
      ensures child.State() == [Level(None, false)] + State()
    {
      TargetsBelow(this);
      filter := Some(Filter.And([], 0, false));
      child := new Selection.Child(this);
    }

    /** with(): this filter appended to the close target, and a sibling closing into the same target returned. */
    method With() returns (r: Result<Selection>)
      requires Linked()
      modifies this, Targets()
      ensures closeTarget == null ==> r == Err(NullPointer) && State() == old(State())
      ensures closeTarget != null ==>
        var ls := old(State());
        match Appended(ls[1].filter, ls[0].filter)
        case Err(e) => r == Err(e) && State() == ls
        case Ok(g) =>
          && State() == [Level(ls[0].filter, true), Level(Some(g), ls[1].appended)] + ls[2..]
          && r.Ok? && fresh(r.value) && r.value.Linked() && r.value.closeTarget == closeTarget
          && r.value.State() == [Level(None, false)] + State()[1..]
    {
      if closeTarget == null {
        return Err(NullPointer);
      }
      var put := HandUp();
      if put.Err? {
        return Err(put.error);
      }
      TargetsBelow(this);
      var sibling := new Selection.Child(closeTarget);
      r := Ok(sibling);
    }

    /** The step with and close share: mCloseTarget.append(mFilter), then mAppended = true. */
    method HandUp() returns (r: Result<()>)
      requires Linked() && closeTarget != null
      modifies this, closeTarget
      ensures
        var ls := old(State());
        match Appended(ls[1].filter, ls[0].filter)
        case Err(e) => r == Err(e) && State() == ls
        case Ok(g) => r.Ok? && State() == [Level(ls[0].filter, true), Level(Some(g), ls[1].appended)] + ls[2..]
    {
      var t := closeTarget;
      TargetsBelow(this);
      TargetsBelow(t);
      ghost var above := if t.closeTarget == null then [] else t.closeTarget.State();
      if t.closeTarget != null {
        TargetsBelow(t.closeTarget);
        assert this !in t.closeTarget.Targets() && t !in t.closeTarget.Targets();
      }
      Unfold(this);
      Unfold(t);
      ghost var ls := State();
      assert ls == [Level(filter, appended), Level(t.filter, t.appended)] + above;
      assert ls[2..] == above;
      var put := t.Append(filter);
      if put.Err? {
        return Err(put.error);
      }
      ghost var g := Appended(ls[1].filter, ls[0].filter).value;
      assert t.filter == Some(g);
      appended := true;
      if t.closeTarget != null {
        StateKept(t.closeTarget);
      }
      Unfold(t);
      assert t.State() == [Level(Some(g), ls[1].appended)] + above;
      Unfold(this);
      assert State() == [Level(ls[0].filter, true)] + t.State();
      PairThen(Level(ls[0].filter, true), Level(Some(g), ls[1].appended), above);
      r := Ok(());
    }

    /** close(): see CloseUp; a root has no target to close into. */
    method Close() returns (r: Result<Selection>)
      requires Linked()
      modifies this, Targets()
      ensures closeTarget == null ==> r == Err(NullPointer) && State() == old(State())
      ensures closeTarget != null ==>
        match CloseUp(old(State()))
        case Err(e) => r == Err(e)
        case Ok((ls, j)) => State() == ls && r == Ok(Line()[j])
      decreases depth
    {
      if closeTarget == null {
        return Err(NullPointer);
      }
      var t := closeTarget;
      TargetsBelow(this);
      TargetsBelow(t);
      ghost var ls := State();
      var put := HandUp();
      if put.Err? {
        assert CloseUp(ls) == Err(put.error);
        return Err(put.error);
      }
      ghost var now := State();
      CloseUpAfterHandUp(ls, now);
      Unfold(this);
      Unfold(t);
      assert t.State() == now[1..];
      if t.closeTarget != null && IsWithin(t.closeTarget.filter) {
        assert |ls| > 2 && IsWithin(ls[2].filter);
        r := t.Close();
        Unfold(this);
      } else {
        r := Ok(t);
      }
    }

    /**
     * commit(): a nested selection appends its filter unless it already has,
     * and defers to its target; the root runs its filter (wrapped for
     * findOne) over the view, adding every accepted position to a new query,
     * and returns the view of that query.
     */
    method Commit() returns (r: Result<YashoDB>)
      requires Linked() && owner.db.Valid()
      requires Addable(owner.db.Visited(owner.db.file.data).members)
      modifies this, Targets(), owner.db.file, owner.db.Side()
      ensures owner.db.Valid() && owner.db.file.data == old(owner.db.file.data)
      ensures Committed(old(State())).Ok? ==> State() == Committed(old(State())).value
      ensures match CommitOutcome(owner.db, owner.onlyOne, old(State()))
        case Err(e) => r == Err(e)
        case Ok(accepted) => r.Ok? && fresh(r.value) && ViewOf(r.value, owner.db, accepted)
      decreases depth
    {
      TargetsBelow(this);
      if closeTarget != null {
        var t := closeTarget;
        TargetsBelow(t);
        ghost var ls := State();
        var put := Pass();
        if put.Err? {
          return Err(put.error);
        }
        ghost var next := t.State();
        r := t.Commit();
        Unfold(this);
        CommitOutcomeStep(owner.db, owner.onlyOne, ls);
        return;
      }
      Unfold(this);
      var flt := Launched(filter, owner.onlyOne);
      if flt.Err? {
        return Err(flt.error);
      }
      r := RootCommit(owner.db, flt.value);
    }

    /** The step of commit() before it defers to the target: append this filter unless mAppended. */
    method Pass() returns (r: Result<()>)
      requires Linked() && closeTarget != null
      modifies closeTarget
      ensures match HandedUp(old(State()))
        case Err(e) => r == Err(e)
        case Ok(next) => r == Ok(()) && closeTarget.State() == next
    {
      var t := closeTarget;
      TargetsBelow(this);
      TargetsBelow(t);
      Unfold(this);
      Unfold(t);
      ghost var above := if t.closeTarget == null then [] else t.closeTarget.State();
      if t.closeTarget != null {
        TargetsBelow(t.closeTarget);
        assert this !in t.closeTarget.Targets() && t !in t.closeTarget.Targets();
      }
      if !appended {
        var put := t.Append(filter);
        if put.Err? {
          return Err(put.error);
        }
      }
      if t.closeTarget != null {
        StateKept(t.closeTarget);
      }
      Unfold(t);
      r := Ok(());
    }
  }

  /** The root's run: applyFilter with an observer that adds each accepted position to a new query. */
  method RootCommit(db: YashoDB, flt: Filter) returns (r: Result<YashoDB>)
    requires db.Valid() && Addable(db.Visited(db.file.data).members)
    modifies db.file, db.Side()
    ensures db.Valid() && db.file.data == old(db.file.data)
    ensures match Applied(db, flt)
      case Err(e) => r == Err(e)
      case Ok((accepted, _)) => r.Ok? && fresh(r.value) && ViewOf(r.value, db, accepted)
  {
    ghost var ms := db.Visited(db.file.data).members;
    var run := db.ApplyFilter(flt);
    if run.Err? {
      return Err(run.error);
    }
    var accepted := run.value.0;
    ghost var none: seq<int> := [];
    RunPicks(db.file.data, db.Visited(db.file.data), flt, none);
    assert accepted[|none|..] == accepted;
    PickedLongs(accepted, ms);
    var query := Collect(accepted);
    var view := new YashoDB.Selected(db, query);
    r := Ok(view);
  }

  /** CloseUp(ls) in terms of the levels after its first step, now. */
  lemma CloseUpAfterHandUp(ls: seq<Level>, now: seq<Level>)
    requires |ls| >= 2 && Appended(ls[1].filter, ls[0].filter).Ok?
    requires now == [Level(ls[0].filter, true), Level(Some(Appended(ls[1].filter, ls[0].filter).value), ls[1].appended)] + ls[2..]
    ensures |now| == |ls| && now[2..] == ls[2..]
    ensures CloseUp(ls) ==
      if |ls| > 2 && IsWithin(ls[2].filter) then
        match CloseUp(now[1..])
        case Err(e) => Err(e)
        case Ok((rs, j)) => Ok(([now[0]] + rs, j + 1))
      else
        Ok((now, 1))
  {
    assert now[1..] == [now[1]] + ls[2..];
    assert now == [now[0]] + now[1..];
  }

  /** A commit() step that hands up without failing changes neither the committed chain's root nor the outcome. */
  lemma CommitOutcomeStep(db: YashoDB, onlyOne: bool, ls: seq<Level>)
    requires |ls| >= 2 && HandedUp(ls).Ok?
    ensures var next := HandedUp(ls).value;
      && CommitOutcome(db, onlyOne, ls) == CommitOutcome(db, onlyOne, next)
      && (Committed(ls).Ok? <==> Committed(next).Ok?)
      && (Committed(ls).Ok? ==> Committed(ls).value == [ls[0]] + Committed(next).value)
  {
    var next := HandedUp(ls).value;
    CommittedStep(ls);
    match Committed(next)
    case Err(e) =>
      assert Committed(ls) == Err(e);
    case Ok(cs) =>
      var whole := [ls[0]] + cs;
      assert Committed(ls) == Ok(whole);
      assert whole[|whole| - 1] == cs[|cs| - 1];
  }

  /** Committed(ls) through its first step. */
  lemma CommittedStep(ls: seq<Level>)
    requires |ls| >= 2 && HandedUp(ls).Ok?
    ensures Committed(ls) ==
      match Committed(HandedUp(ls).value)
      case Err(e) => Err(e)
      case Ok(rs) => Ok([ls[0]] + rs)
  {
  }

  /** A chain none of whose selections changed has the same levels. */
  twostate lemma {:induction false} StateKept(s: Selection)
    requires s.Linked() && unchanged(s)
    requires forall x :: x in s.Targets() ==> old(allocated(x)) && unchanged(x)
    ensures s.State() == old(s.State())
    decreases s.depth
  {
    if s.closeTarget != null {
      assert s.Targets() == {s.closeTarget} + s.closeTarget.Targets();
      assert s.closeTarget in s.Targets();
      StateKept(s.closeTarget);
    }
  }

  /** Two levels put in front of the rest, one at a time or together. */
  lemma PairThen(a: Level, b: Level, rest: seq<Level>)
    ensures [a] + ([b] + rest) == [a, b] + rest
  {
  }

  /** Line() and State() of a selection, unfolded once. */
  lemma Unfold(s: Selection)
    requires s.Linked()
    ensures s.closeTarget == null ==> s.Line() == [s] && s.State() == [Level(s.filter, s.appended)]
    ensures s.closeTarget != null ==>
      && s.Line() == [s] + s.closeTarget.Line()
      && s.State() == [Level(s.filter, s.appended)] + s.closeTarget.State()
  {
  }

  /** The observer of the root's commit: a new query with every accepted position added, in order. */
  method Collect(accepted: seq<int>) returns (query: QueryResult)
    requires 8 * (|accepted| + 1) < TWO_63 && forall i :: 0 <= i < |accepted| ==> IsLong(accepted[i])
    ensures fresh(query) && query.Valid() && query.added == accepted
    ensures query.side == null || fresh(query.side)
  {
    query := new QueryResult(INT_MAX);
    var i := 0;
    while i < |accepted|
      invariant 0 <= i <= |accepted|
      invariant fresh(query) && query.Valid() && query.added == accepted[..i]
      invariant query.side == null || fresh(query.side)
    {
      query.Add(accepted[i]);
      assert accepted[..i + 1] == accepted[..i] + [accepted[i]];
      i := i + 1;
    }
    assert accepted[..i] == accepted;
  }

  /** The selections above s lie closer to the root, and none of them is a fresh one. */
  lemma {:induction false} TargetsBelow(s: Selection)
    requires s.Linked()
    ensures forall t :: t in s.Targets() ==> t.depth < s.depth && allocated(t)
    decreases s.depth
  {
    if s.closeTarget != null {
      TargetsBelow(s.closeTarget);
    }
  }

  /** A count(key) in progress: the selection it installs into and the key it counts. */
  class CountSelection {
    const selection: Selection
    const key: JString

    constructor (selection: Selection, key: JString)
      ensures this.selection == selection && this.key == key
    {
      this.selection := selection;
      this.key := key;
    }

    /**
     * equalsTo, notEqualsTo, biggerThan, smallerThan, biggerThanOrEqualTo and
     * smallerThanOrEqualTo, one per op: a CountFilter on the key installed
     * by setFilter; the selection itself is returned, even when setFilter
     * closed up to another one.
     */
    method Compare(value: JavaObject, op: Operand) returns (r: Result<Selection>)
      requires selection.Linked()
      modifies selection, selection.Targets()
      ensures match NewCount(key, value, op)
        case Err(e) => r == Err(e) && selection.State() == old(selection.State())
        case Ok(flt) =>
          match SetFilterOutcome(old(selection.State()), flt)
          case Err(e) => r == Err(e)
          case Ok((ls, _)) => r == Ok(selection) && selection.State() == ls
    {
      var flt := NewCount(key, value, op);
      if flt.Err? {
        return Err(flt.error);
      }
      var installed := selection.SetFilter(flt.value);
      if installed.Err? {
        return Err(installed.error);
      }
      r := Ok(selection);
    }
  }
}
