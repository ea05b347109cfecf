/**
 * Filter.java: the per-member protocol a selection runs over a collection,
 * and applyFilter / applyFilterOnMember / getValueForKey of YashoDB.java,
 * which drive it.  A filter is a value here: its variant, its settings and
 * the state the source keeps in its fields (mMatches, mNeedMore, mIndex).
 * Each protocol call is a function from the filter to its answer and the
 * filter's next state; Run is the scan of applyFilter over the live members
 * of a collection, with the positions the root filter accepted (those its
 * observer is told of) as its result.
 */
module Filters {
  import opened Bytes
  import opened Text
  import opened Results
  import opened Values
  import opened Chains
  import opened Walker

  datatype Operand = ST | SQT | EQ | NEQ | BQT | BT

  /**
   * What getValueForKey hands to a filter: the KEY_NOT_FOUND sentinel, the
   * Integer -1 for a path through something that is not an object, a stored
   * null, a stored scalar, or a view of the nested object or collection
   * whose tag byte is at `at`.
   */
  datatype Probe = Missing | NotAnObject | NullValue | Scalar(s: JString) | View(tag: byte, at: nat)

  datatype Filter =
    | Comparison(key: JString, arg: JavaObject, op: Operand, matches: bool)
    | IsNull(key: JString, matches: bool)
    | NotNull(key: JString, matches: bool)
    | Count(key: JString, target: int, op: Operand, matches: bool)
    | OnlyOne(inner: Option<Filter>, needMore: bool)
    | Within(key: JString, inner: Option<Filter>, matches: bool)
    | And(parts: seq<Option<Filter>>, index: int, matches: bool)   // an unfinished stub in the source
    | Or(parts: seq<Option<Filter>>)                               // an unfinished stub in the source

  /** x op y, as both ComparisonFilter (field against operand) and CountFilter (count against target) read it. */
  predicate Compare(op: Operand, x: real, y: real)
  {
    match op
    case ST => x < y
    case SQT => x <= y
    case EQ => x == y
    case NEQ => x != y
    case BQT => x >= y
    case BT => x > y
  }

  /** Double.parseDouble(value.toString()) of what a filter is handed; only text and the Integer -1 parse. */
  function ProbeNumber(p: Probe): Option<real>
  {
    match p
    case Scalar(s) => ParseDecimal(s)
    case NotAnObject => Some(-1.0)
    case _ => None
  }

  /** Double.parseDouble(mValue.toString()): None when toString throws or the text is not a number. */
  function ArgNumber(arg: JavaObject): Option<real>
  {
    match ToText(arg)
    case None => None
    case Some(t) => ParseDecimal(t)
  }

  /**
   * mValue.equals(value) for a non-null mValue, where it can decide a
   * match: a String equals the same stored text; a Number's text always
   * parses, so it never gets here; other objects equal only themselves.
   */
  predicate ArgEquals(arg: JavaObject, p: Probe)
  {
    arg.Storable? && arg.v.Str? && p == Scalar(arg.v.s)
  }

  /** CountFilter's constructor: Long.parseLong(value.toString()). */
  function NewCount(key: JString, value: JavaObject, op: Operand): (r: Result<Filter>)
    ensures r.Ok? ==>
      ToText(value).Some? && ParseLong(ToText(value).value).Some?
      && r.value == Count(key, ParseLong(ToText(value).value).value, op, false)
    ensures r.Err? <==> ToText(value).None? || ParseLong(ToText(value).value).None?
  {
    match ToText(value)
    case None => Err(NullPointer)
    case Some(t) =>
      match ParseLong(t)
      case None => Err(NumberFormat)
      case Some(n) => Ok(Count(key, n, op, false))
  }

  /** The nesting depth of a filter; a protocol call never changes it. */
  function Rank(flt: Filter): nat
  {
    match flt
    case OnlyOne(inner, _) => if inner.Some? then Rank(inner.value) + 1 else 1
    case Within(_, inner, _) => if inner.Some? then Rank(inner.value) + 2 else 2
    case _ => 1
  }

  /** The filters that ask for one field. */
  predicate Leaf(flt: Filter)
  {
    flt.Comparison? || flt.IsNull? || flt.NotNull? || flt.Count? || flt.Within?
  }

  /** A leaf filter with its match flag set to m. */
  function Matching(flt: Filter, m: bool): (r: Filter)
    requires Leaf(flt)
    ensures Leaf(r) && r.key == flt.key && r.matches == m && Rank(r) == Rank(flt)
  {
    if flt.Comparison? then Comparison(flt.key, flt.arg, flt.op, m)
    else if flt.IsNull? then IsNull(flt.key, m)
    else if flt.NotNull? then NotNull(flt.key, m)
    else if flt.Count? then Count(flt.key, flt.target, flt.op, m)
    else Within(flt.key, flt.inner, m)
  }

  /** The key a filter first asks for: its own, its wrapped filter's, or none. */
  function FirstKey(flt: Filter): Option<JString>
  {
    match flt
    case OnlyOne(inner, _) => if inner.Some? then FirstKey(inner.value) else None
    case And(_, _, _) => None
    case Or(_) => None
    case _ => Some(flt.key)
  }

  // ---------------------------------------------------------------- the protocol

  /** onNewMember: true to go on with this member and the rest. */
  function OnNewMember(flt: Filter): (r: Result<(bool, Filter)>)
    ensures r.Ok? ==> Rank(r.value.1) == Rank(flt)
    ensures r.Ok? ==> r.value.1.OnlyOne? == flt.OnlyOne?
    ensures Leaf(flt) ==> r == Ok((true, Matching(flt, false)))
  {
    match flt
    case OnlyOne(inner, needMore) =>
      if !needMore then Ok((false, flt))
      else if inner.None? then Err(NullPointer)
      else
        (match OnNewMember(inner.value)
         case Err(e) => Err(e)
         case Ok((go, g)) => Ok((go, OnlyOne(Some(g), needMore))))
    case And(parts, _, _) => Ok((true, And(parts, -1, true)))
    case Or(_) => Ok((false, flt))
    case _ => Ok((true, Matching(flt, false)))
  }

  /** onMemberReviewed: whether the member is accepted (and the observer, if any, told). */
  function OnMemberReviewed(flt: Filter): (r: Result<(bool, Filter)>)
    ensures r.Ok? ==> Rank(r.value.1) == Rank(flt)
    ensures r.Ok? ==> r.value.1.OnlyOne? == flt.OnlyOne?
    ensures Leaf(flt) ==> r == Ok((flt.matches, flt))
  {
    match flt
    case OnlyOne(inner, needMore) =>
      if inner.None? then Err(NullPointer)
      else
        (match OnMemberReviewed(inner.value)
         case Err(e) => Err(e)
         case Ok((accepted, g)) => Ok((accepted, OnlyOne(Some(g), if accepted then false else needMore))))
    case And(_, _, _) => Ok((false, flt))
    case Or(_) => Ok((false, flt))
    case _ => Ok((flt.matches, flt))
  }

  /**
   * consider(key, value): the next key the filter needs, or None.  With no
   * key it names its field; given the field's value it decides and asks
   * for nothing more.  A within filter runs a first-match scan of the
   * nested collection, which is why the file is a parameter.
   */
  function Consider(f: seq<byte>, flt: Filter, key: Option<JString>, p: Probe): (r: Result<(Option<JString>, Filter)>)
    ensures r.Ok? ==> Rank(r.value.1) == Rank(flt)
    ensures r.Ok? ==> r.value.1.OnlyOne? == flt.OnlyOne?
    ensures r.Ok? && key.None? ==> r.value.0 == FirstKey(flt)
    ensures Leaf(flt) && key.None? ==> r == Ok((Some(flt.key), flt))
    ensures r.Ok? && key.Some? ==> r.value.0.None?
    decreases Rank(flt), 1, 0
  {
    match flt
    case OnlyOne(inner, needMore) =>
      if inner.None? then Err(NullPointer)
      else
        (match Consider(f, inner.value, key, p)
         case Err(e) => Err(e)
         case Ok((next, g)) => Ok((next, OnlyOne(Some(g), needMore))))
    case And(parts, index, matches) => Ok((None, And(parts, index + 1, matches)))
    case Or(_) => Ok((None, flt))
    case _ =>
      if key.None? then Ok((Some(flt.key), flt))
      else
        match ConsiderValue(f, flt, p)
        case Err(e) => Err(e)
        case Ok(g) => Ok((None, g))
  }

  /** consider(key, value) of a leaf filter once the value is there: its new state. */
  function ConsiderValue(f: seq<byte>, flt: Filter, p: Probe): (r: Result<Filter>)
    requires Leaf(flt)
    ensures r.Ok? ==> Leaf(r.value) && Rank(r.value) == Rank(flt) && r.value.key == flt.key
    decreases Rank(flt), 0, 0
  {
    match flt
    case Comparison(k, arg, op, matches) =>
      if p == NullValue then Ok(Comparison(k, arg, op, false))
      else if ArgNumber(arg).Some? && ProbeNumber(p).Some? then
        Ok(Comparison(k, arg, op, Compare(op, ProbeNumber(p).value, ArgNumber(arg).value)))
      else if op == EQ || op == NEQ then
        if arg == Storable(Null) then Err(NullPointer)
        else Ok(Comparison(k, arg, op, (op == EQ) == ArgEquals(arg, p)))
      else Ok(flt)
    case IsNull(k, _) => Ok(IsNull(k, p == NullValue))
    case NotNull(k, _) => Ok(NotNull(k, p != NullValue))
    case Count(k, target, op, _) =>
      if !(p.View? && p.tag == COLLECTION) then Ok(flt)
      else
        (match LongAt(f, p.at + 1)
         case None => Err(Access)
         case Some(n) => Ok(Count(k, target, op, Compare(op, n as real, target as real))))
    case Within(k, inner, matches) =>
      if !(p.View? && p.tag == COLLECTION) then Ok(flt)
      else
        match Run(f, Members(f, p.at), OnlyOne(inner, true), [])
        case Err(e) => Err(e)
        case Ok((accepted, g)) =>
          assert g.OnlyOne?;
          Ok(Within(k, g.inner, matches || |accepted| > 0))
  }

  /** The walk iterate makes over the collection whose tag byte is at `at`: its slots start past the count. */
  function Members(f: seq<byte>, at: nat): Scan
  {
    ScanFrom(f, at + 9)
  }

  // ---------------------------------------------------------------- getValueForKey

  /** readValue(length, true): a nested object or collection as a view, null, or the text of a scalar. */
  function ViewAt(f: seq<byte>, q: nat): (r: Result<Probe>)
    ensures r.Ok? ==> r.value in {NullValue} || r.value.Scalar? || (r.value.View? && r.value.at == q)
  {
    if q >= |f| then Err(Access)
    else if f[q] == OBJECT || f[q] == COLLECTION then Ok(View(f[q], q))
    else if f[q] == NULL then Ok(NullValue)
    else if f[q] == VALUE then
      match ReadUtfAt(f, q + 1)
      case Ok(read) => Ok(Scalar(read.0))
      case Err(e) => Err(e)
    else Err(IllegalState)
  }

  /** getValueForKey for the path parts, from the node whose tag byte is at q. */
  function ProbeAt(f: seq<byte>, q: nat, parts: seq<JString>): (r: Result<Probe>)
    decreases |parts|
  {
    if parts == [] then ViewAt(f, q)
    else if q >= |f| then Err(Access)
    else if f[q] != OBJECT then Ok(NotAnObject)
    else
      match FindKey(f, Walk(f, q + 1, true), parts[0], 0)
      case Err(e) => Err(e)
      case Ok(None) => Ok(Missing)
      case Ok(Some(h)) => if h.valueLen == -1 then Ok(Missing) else ProbeAt(f, h.valueAt, parts[1..])
  }

  // ---------------------------------------------------------------- applyFilter

  /**
   * applyFilterOnMember at the member whose payload starts at q: ask the
   * filter for a key, fetch that key's value, hand it over, until the
   * filter asks for nothing (which, by Consider's contract, is after at
   * most one value).
   */
  function OnMember(f: seq<byte>, q: nat, flt: Filter): (r: Result<Filter>)
    ensures r.Ok? ==> Rank(r.value) == Rank(flt) && r.value.OnlyOne? == flt.OnlyOne?
    decreases Rank(flt), 2, 0
  {
    match Consider(f, flt, None, NullValue)
    case Err(e) => Err(e)
    case Ok((next, g)) =>
      if next.None? then Ok(g)
      else
        match ProbeAt(f, q, SplitPath(next.value))
        case Err(e) => Err(e)
        case Ok(p) =>
          match Consider(f, g, next, p)
          case Err(e) => Err(e)
          case Ok((_, h)) => Ok(h)
  }

  /**
   * What the process callback of applyFilter does with one member whose
   * payload starts at q: onNewMember (whether to go on), the review of its
   * fields, and onMemberReviewed (whether it is accepted).
   */
  function Review(f: seq<byte>, q: nat, flt: Filter): (r: Result<(bool, bool, Filter)>)
    ensures r.Ok? ==> Rank(r.value.2) == Rank(flt) && r.value.2.OnlyOne? == flt.OnlyOne?
    ensures r.Ok? && !r.value.0 ==> !r.value.1
    decreases Rank(flt), 3, 0
  {
    match OnNewMember(flt)
    case Err(x) => Err(x)
    case Ok((go, g)) =>
      if !go then Ok((false, false, g))
      else
        match OnMember(f, q, g)
        case Err(x) => Err(x)
        case Ok(h) =>
          match OnMemberReviewed(h)
          case Err(x) => Err(x)
          case Ok((yes, k)) => Ok((true, yes, k))
  }

  /**
   * applyFilter over the members of a walk, after the positions in
   * accepted: each member is reviewed (a false onNewMember ends the scan)
   * and its liveness byte's offset is accepted when the review says so.
   * The fault that ended the walk is raised once every member before it
   * has been processed.
   */
  function Run(f: seq<byte>, s: Scan, flt: Filter, accepted: seq<int>): (r: Result<(seq<int>, Filter)>)
    ensures r.Ok? ==> Rank(r.value.1) == Rank(flt) && r.value.1.OnlyOne? == flt.OnlyOne?
    decreases Rank(flt), 4, |s.members|
  {
    if s.members == [] then
      if s.fault.Some? then Err(s.fault.value) else Ok((accepted, flt))
    else
      var e := s.members[0];
      match Review(f, e.at + 9, flt)
      case Err(x) => Err(x)
      case Ok((go, yes, k)) =>
        if !go then Ok((accepted, k))
        else Run(f, Scan(s.members[1..], s.fault), k, accepted + (if yes then [e.at] else []))
  }

  // ---------------------------------------------------------------- properties

  /**
   * The verdict each leaf filter gives on a member whose field reads p,
   * stated directly: a comparison never accepts null, compares numbers when
   * both sides parse, and otherwise decides only equality; isNull and
   * isNotNull split on a stored null (a missing key is not null); a count
   * filter and a within filter look only at a nested collection.
   * It is the reference definition for ConsiderValue, which follows the
   * classes' own branch order and records the verdict in the filter's
   * state; LeafReview proves that a whole review of one member ends in
   * this verdict.
   */
  function Accepts(f: seq<byte>, flt: Filter, p: Probe): Result<bool>
    requires Leaf(flt)
    decreases Rank(flt), 5, 0
  {
    match flt
    case Comparison(_, arg, op, _) =>
      if p == NullValue then Ok(false)
      else if ProbeNumber(p).Some? && ArgNumber(arg).Some? then Ok(Compare(op, ProbeNumber(p).value, ArgNumber(arg).value))
      else if op != EQ && op != NEQ then Ok(false)
      else if arg == Storable(Null) then Err(NullPointer)
      else Ok(ArgEquals(arg, p) <==> op == EQ)
    case IsNull(_, _) => Ok(p == NullValue)
    case NotNull(_, _) => Ok(p != NullValue)
    case Count(_, target, op, _) =>
      if !(p.View? && p.tag == COLLECTION) then Ok(false)
      else if LongAt(f, p.at + 1).None? then Err(Access)
      else Ok(Compare(op, LongAt(f, p.at + 1).value as real, target as real))
    case Within(_, inner, _) =>
      if !(p.View? && p.tag == COLLECTION) then Ok(false)
      else
        match Run(f, Members(f, p.at), OnlyOne(inner, true), [])
        case Err(e) => Err(e)
        case Ok((accepted, _)) => Ok(|accepted| > 0)
  }

  /**
   * A leaf filter's review of a member is a function of the member alone:
   * onNewMember clears whatever the previous member left, the filter asks
   * for its own key, and the member is accepted exactly when Accepts says
   * so of that key's value.
   */
  lemma LeafReview(f: seq<byte>, q: nat, flt: Filter)
    requires Leaf(flt)
    ensures var p := ProbeAt(f, q, SplitPath(flt.key));
      (p.Err? ==> Review(f, q, flt) == Err(p.error))
      && (p.Ok? && Accepts(f, flt, p.value).Err? ==> Review(f, q, flt) == Err(Accepts(f, flt, p.value).error))
      && (p.Ok? && Accepts(f, flt, p.value).Ok? ==>
            Review(f, q, flt).Ok? && Review(f, q, flt).value.0 && Review(f, q, flt).value.1 == Accepts(f, flt, p.value).value)
  {
    var g := Matching(flt, false);
    assert OnNewMember(flt) == Ok((true, g));
    assert Consider(f, g, None, NullValue) == Ok((Some(flt.key), g));
    var p := ProbeAt(f, q, SplitPath(flt.key));
    if p.Ok? {
      assert Consider(f, g, Some(flt.key), p.value) == match ConsiderValue(f, g, p.value) case Err(e) => Err(e) case Ok(h) => Ok((None, h));
      match ConsiderValue(f, g, p.value)
      case Err(e) =>
      case Ok(h) =>
        assert OnMember(f, q, g) == Ok(h);
        assert OnMemberReviewed(h) == Ok((h.matches, h));
    }
  }

  /** OnlyOne passes a member through its wrapped filter. */
  lemma OnMemberOnlyOne(f: seq<byte>, q: nat, g: Filter, needMore: bool)
    ensures OnMember(f, q, OnlyOne(Some(g), needMore))
         == match OnMember(f, q, g) case Err(e) => Err(e) case Ok(h) => Ok(OnlyOne(Some(h), needMore))
  {
    match Consider(f, g, None, NullValue)
    case Err(e) =>
    case Ok((next, g1)) =>
      if next.Some? {
        match ProbeAt(f, q, SplitPath(next.value))
        case Err(e) =>
        case Ok(p) =>
          assert Consider(f, OnlyOne(Some(g1), needMore), next, p)
              == match Consider(f, g1, next, p) case Err(e) => Err(e) case Ok((n2, h)) => Ok((n2, OnlyOne(Some(h), needMore)));
      }
  }

  /**
   * OnlyOneFilter: while it needs more, a member gets its wrapped filter's
   * verdict and an accepted one ends the need; once it needs no more, it
   * stops the scan at the next member.
   */
  lemma ReviewOnlyOne(f: seq<byte>, q: nat, inner: Option<Filter>, needMore: bool)
    ensures !needMore ==> Review(f, q, OnlyOne(inner, needMore)) == Ok((false, false, OnlyOne(inner, false)))
    ensures needMore && inner.Some? ==>
      Review(f, q, OnlyOne(inner, needMore))
        == match Review(f, q, inner.value)
           case Err(e) => Err(e)
           case Ok((go, yes, k)) => Ok((go, yes, OnlyOne(Some(k), !yes)))
  {
    if needMore && inner.Some? {
      match OnNewMember(inner.value)
      case Err(e) =>
      case Ok((go, g)) =>
        if go {
          OnMemberOnlyOne(f, q, g, true);
        }
    }
  }

  /**
   * A first-match scan accepts at most one member: OnlyOneFilter lets
   * through only the first member its wrapped filter accepts, and after it
   * the scan ends.
   */
  lemma {:induction false} RunOnlyOne(f: seq<byte>, s: Scan, inner: Option<Filter>, needMore: bool, accepted: seq<int>)
    ensures var r := Run(f, s, OnlyOne(inner, needMore), accepted);
      r.Ok? ==> accepted <= r.value.0 && |r.value.0| <= |accepted| + (if needMore then 1 else 0)
    decreases |s.members|
  {
    if s.members != [] {
      var e := s.members[0];
      var rest := Scan(s.members[1..], s.fault);
      ReviewOnlyOne(f, e.at + 9, inner, needMore);
      match Review(f, e.at + 9, OnlyOne(inner, needMore))
      case Err(_) =>
      case Ok((go, yes, k)) =>
        if go {
          var next := accepted + (if yes then [e.at] else []);
          assert needMore && inner.Some?;
          assert k == OnlyOne(k.inner, !yes);
          RunOnlyOne(f, rest, k.inner, !yes, next);
        }
    }
  }

  /** qs are the positions of some of the entries ms, in their order. */
  predicate Picked(qs: seq<int>, ms: seq<Entry>)
    decreases |ms|
  {
    if qs == [] then true
    else if ms == [] then false
    else (qs[0] == ms[0].at && Picked(qs[1..], ms[1..])) || Picked(qs, ms[1..])
  }

  /**
   * applyFilter accepts members only, each at most once and in the order
   * of the walk: what Run adds to the accepted positions is the liveness
   * byte offsets of a subsequence of the members.
   */
  lemma {:induction false} RunPicks(f: seq<byte>, s: Scan, flt: Filter, accepted: seq<int>)
    ensures var r := Run(f, s, flt, accepted);
      r.Ok? ==> accepted <= r.value.0 && Picked(r.value.0[|accepted|..], s.members)
    decreases |s.members|
  {
    if s.members != [] {
      var e := s.members[0];
      var rest := Scan(s.members[1..], s.fault);
      match Review(f, e.at + 9, flt)
      case Err(_) =>
      case Ok((go, yes, k)) =>
        if go {
          var next := accepted + (if yes then [e.at] else []);
          RunPicks(f, rest, k, next);
          var r := Run(f, s, flt, accepted);
          assert r == Run(f, rest, k, next);
          if r.Ok? {
            var qs := r.value.0[|accepted|..];
            if yes {
              assert qs == [e.at] + r.value.0[|next|..];
              assert qs[1..] == r.value.0[|next|..];
            } else {
              assert qs == r.value.0[|next|..];
            }
          }
        }
    }
  }
}
