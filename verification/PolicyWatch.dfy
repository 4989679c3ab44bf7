/** The hot-reloading policy holder: one reloader, any number of readers, any interleaving. */
module PolicyWatching {
  import opened Options

  /** How policies are parsed and evaluated. */
  datatype Rules<!P, !C> = Rules(parse: string -> Option<P>, allows: (P, C) -> bool)

  datatype WatchError = NoPath | BadRefresh | CannotRead | BadPolicy

  // ---- the object, one call at a time ----

  class FileWatcher<P, C> {
    const rules: Rules<P, C>
    /** The policy in force; none before the first successful load. */
    var current: Option<P>
    /** The content last loaded; a nil slice compares equal to an empty file. */
    var last: string
    /** The contents passed to OnPolicyUpdate. */
    var updates: seq<string>

    constructor (rules: Rules<P, C>)
      ensures this.rules == rules && current == None && last == "" && updates == []
    {
      this.rules, current, last, updates := rules, None, "", [];
    }

    /** Loads the file again; `content` is what reading it gives.  On any failure, and when
        nothing has changed, everything stays. */
    method Reload(content: Option<string>) returns (err: Option<WatchError>)
      modifies this
      ensures err == match content
        case None => Some(CannotRead)
        case Some(data) => if data != old(last) && rules.parse(data).None? then Some(BadPolicy) else None
      ensures if content.Some? && content.value != old(last) && rules.parse(content.value).Some?
        then last == content.value && current == rules.parse(last) && updates == old(updates) + [last]
        else last == old(last) && current == old(current) && updates == old(updates)
    {
      if content.None? {
        return Some(CannotRead);
      }
      var data := content.value;
      if last == data {
        return None;
      }
      var policy := rules.parse(data);
      if policy.None? {
        return Some(BadPolicy);
      }
      last := data;
      current := policy;
      updates := updates + [data];
      return None;
    }

    /** None when no policy was ever loaded, where the original has a nil pointer. */
    method IsAuthorized(ctx: C) returns (allowed: Option<bool>)
      ensures allowed.Some? <==> current.Some?
      ensures allowed.Some? ==> allowed.value == rules.allows(current.value, ctx)
    {
      if current.None? {
        return None;
      }
      return Some(rules.allows(current.value, ctx));
    }
  }

  /** A new watcher; `content` is what reading the file first gives.  It has a policy exactly
      when it could be built and the file was not empty. */
  method NewFileWatcher<P, C>(rules: Rules<P, C>, path: string, refresh: int, content: Option<string>)
    returns (r: Result<FileWatcher<P, C>, WatchError>)
    ensures r.Ok? <==> path != "" && refresh > 0 && content.Some? && (content.value == "" || rules.parse(content.value).Some?)
    ensures r.Ok? ==> fresh(r.value) && r.value.rules == rules
    ensures r.Ok? ==> (r.value.current.Some? <==> content.value != "")
    ensures r.Ok? && content.value != "" ==>
      r.value.current == rules.parse(content.value) && r.value.last == content.value && r.value.updates == [content.value]
  {
    if path == "" {
      return Err(NoPath);
    }
    if refresh <= 0 {
      return Err(BadRefresh);
    }
    var a := new FileWatcher(rules);
    var err := a.Reload(content);
    if err.Some? {
      return Err(err.value);
    }
    return Ok(a);
  }

  // ---- every interleaving ----

  /** Where the reloader stands: waiting for a tick, holding what it read, having replaced
      `last`, or having also stored the policy but not yet reported it. */
  datatype Phase<P> = Idle | Got(data: string) | Replaced(policy: P) | Stored

  datatype Verdict<P, C> = Verdict(policy: P, ctx: C, allowed: bool)

  datatype State<P, C> = State(
    disk: Option<string>, phase: Phase<P>, last: string, current: Option<P>, updates: seq<string>,
    loaded: map<nat, P>, verdicts: seq<Verdict<P, C>>,
    /** History: the valid contents read so far, and the one whose policy is current. */
    seen: seq<string>, shown: string)

  datatype Event<C> =
    | FileChanges(disk: Option<string>)
    | Tick
    | Check
    | Store
    | Notify
    | Load(reader: nat)
    | Answer(reader: nat, ctx: C)

  /** What one event does; None when it cannot happen in that state. */
  function Next<P, C>(s: State<P, C>, e: Event<C>, r: Rules<P, C>): Option<State<P, C>> {
    match e
    case FileChanges(disk) => Some(s.(disk := disk))
    case Tick =>
      if !s.phase.Idle? then None
      else if s.disk.None? then Some(s)
      else
        var d := s.disk.value;
        Some(s.(phase := Got(d), seen := if r.parse(d).Some? then s.seen + [d] else s.seen))
    case Check =>
      if !s.phase.Got? then None
      else if s.last == s.phase.data || r.parse(s.phase.data).None? then Some(s.(phase := Idle))
      else Some(s.(last := s.phase.data, phase := Replaced(r.parse(s.phase.data).value)))
    case Store =>
      if !s.phase.Replaced? then None
      else Some(s.(current := Some(s.phase.policy), phase := Stored, shown := s.last))
    case Notify =>
      if !s.phase.Stored? then None
      else Some(s.(updates := s.updates + [s.last], phase := Idle))
    case Load(id) =>
      if s.current.None? then None else Some(s.(loaded := s.loaded[id := s.current.value]))
    case Answer(id, ctx) =>
      if id !in s.loaded then None
      else Some(s.(verdicts := s.verdicts + [Verdict(s.loaded[id], ctx, r.allows(s.loaded[id], ctx))]))
  }

  /** After a construction from valid content. */
  function Start<P, C>(first: string, policy: P): State<P, C> {
    State(Some(first), Idle, first, Some(policy), [first], map[], [], [first], first)
  }

  /** Adjacent duplicates removed. */
  function Distinct(xs: seq<string>): (r: seq<string>)
    ensures xs != [] ==> r != [] && r[|r| - 1] == xs[|xs| - 1]
  {
    if |xs| <= 1 then xs
    else
      var r := Distinct(xs[..|xs| - 1]);
      if xs[|xs| - 2] == xs[|xs| - 1] then r else r + [xs[|xs| - 1]]
  }

  lemma {:induction false} DistinctMore(xs: seq<string>, x: string)
    requires xs != []
    ensures Distinct(xs + [x]) == if xs[|xs| - 1] == x then Distinct(xs) else Distinct(xs) + [x]
  {
    assert (xs + [x])[..|xs|] == xs;
  }

  /** Distinct keeps the elements and leaves no two equal neighbours. */
  lemma {:induction false} DistinctIs(xs: seq<string>)
    ensures forall x :: x in Distinct(xs) <==> x in xs
    ensures forall i :: 0 < i < |Distinct(xs)| ==> Distinct(xs)[i - 1] != Distinct(xs)[i]
  {
    if |xs| > 1 {
      var n := |xs| - 1;
      DistinctIs(xs[..n]);
      assert xs == xs[..n] + [xs[n]];
    }
  }

  /** A policy parsed from something that was read. */
  ghost predicate Genuine<P, C>(p: P, seen: seq<string>, r: Rules<P, C>) {
    exists i :: 0 <= i < |seen| && r.parse(seen[i]) == Some(p)
  }

  /** The contents that have been read and dealt with. */
  function Handled<P, C>(s: State<P, C>, r: Rules<P, C>): seq<string> {
    if (s.phase.Got? && r.parse(s.phase.data).Some?) || s.phase.Replaced? || s.phase.Stored? then
      if s.seen == [] then [] else s.seen[..|s.seen| - 1]
    else s.seen
  }

  /** What the reloader's phase says about `last`, given the contents dealt with. */
  ghost predicate PhaseOk<P, C>(s: State<P, C>, h: seq<string>, r: Rules<P, C>)
    requires h != []
  {
    match s.phase
    case Idle => s.last == h[|h| - 1] && s.shown == s.last && s.seen == h
    case Got(d) => s.last == h[|h| - 1] && s.shown == s.last && s.seen == if r.parse(d).Some? then h + [d] else h
    case Replaced(p) => s.seen == h + [s.last] && s.last != h[|h| - 1] && s.shown == h[|h| - 1] && r.parse(s.last) == Some(p)
    case Stored => s.seen == h + [s.last] && s.last != h[|h| - 1] && s.shown == s.last
  }

  ghost predicate Readers<P, C>(s: State<P, C>, r: Rules<P, C>) {
    && (forall id :: id in s.loaded ==> Genuine(s.loaded[id], s.seen, r))
    && (forall v :: v in s.verdicts ==> Genuine(v.policy, s.seen, r) && v.allowed == r.allows(v.policy, v.ctx))
  }

  ghost predicate Inv<P, C>(s: State<P, C>, r: Rules<P, C>) {
    var h := Handled(s, r);
    && h != [] && s.updates == Distinct(h) && PhaseOk(s, h, r)
    && s.current.Some? && s.current == r.parse(s.shown) && s.shown in s.seen
    && Readers(s, r)
  }

  lemma {:induction false} GenuineMore<P, C>(p: P, seen: seq<string>, x: string, r: Rules<P, C>)
    requires Genuine(p, seen, r)
    ensures Genuine(p, seen + [x], r)
  {
    var i :| 0 <= i < |seen| && r.parse(seen[i]) == Some(p);
    assert (seen + [x])[i] == seen[i];
  }

  lemma {:induction false} StartInv<P, C>(first: string, policy: P, r: Rules<P, C>)
    requires r.parse(first) == Some(policy)
    ensures Inv(Start(first, policy), r)
  {
  }

  /** Readers stay right when more has been read. */
  lemma {:induction false} ReadersMore<P, C>(s: State<P, C>, t: State<P, C>, d: string, r: Rules<P, C>)
    requires Readers(s, r) && t.loaded == s.loaded && t.verdicts == s.verdicts && t.seen == s.seen + [d]
    ensures Readers(t, r)
  {
    forall id | id in s.loaded ensures Genuine(s.loaded[id], t.seen, r) { GenuineMore(s.loaded[id], s.seen, d, r); }
    forall v | v in s.verdicts ensures Genuine(v.policy, t.seen, r) { GenuineMore(v.policy, s.seen, d, r); }
  }

  lemma {:induction false} TickKeeps<P, C>(s: State<P, C>, r: Rules<P, C>)
    requires Inv(s, r) && s.phase.Idle? && s.disk.Some?
    ensures Inv(Next(s, Tick, r).value, r)
  {
    var d, t := s.disk.value, Next(s, Tick, r).value;
    if r.parse(d).Some? {
      assert t.seen[..|t.seen| - 1] == s.seen;
      ReadersMore(s, t, d, r);
    } else {
      assert Readers(t, r);
    }
    assert Handled(t, r) == s.seen && PhaseOk(t, s.seen, r);
  }

  lemma {:induction false} CheckBad<P, C>(s: State<P, C>, r: Rules<P, C>)
    requires Inv(s, r) && s.phase.Got? && r.parse(s.phase.data).None?
    ensures Inv(s.(phase := Idle), r)
  {
    assert Readers(s.(phase := Idle), r);
  }

  lemma {:induction false} CheckSame<P, C>(s: State<P, C>, r: Rules<P, C>)
    requires Inv(s, r) && s.phase.Got? && s.last == s.phase.data && r.parse(s.last).Some?
    ensures Inv(s.(phase := Idle), r)
  {
    var h, t := Handled(s, r), s.(phase := Idle);
    DistinctMore(h, s.last);
    assert Handled(t, r) == h + [s.last] && Readers(t, r);
  }

  lemma {:induction false} CheckNew<P, C>(s: State<P, C>, p: P, r: Rules<P, C>)
    requires Inv(s, r) && s.phase.Got? && s.last != s.phase.data && r.parse(s.phase.data) == Some(p)
    ensures Inv(s.(last := s.phase.data, phase := Replaced(p)), r)
  {
    assert Handled(s.(last := s.phase.data, phase := Replaced(p)), r) == Handled(s, r);
  }

  lemma {:induction false} CheckKeeps<P, C>(s: State<P, C>, r: Rules<P, C>)
    requires Inv(s, r) && s.phase.Got?
    ensures Inv(Next(s, Check, r).value, r)
  {
    if r.parse(s.phase.data).None? {
      CheckBad(s, r);
    } else if s.last == s.phase.data {
      CheckSame(s, r);
    } else {
      CheckNew(s, r.parse(s.phase.data).value, r);
    }
  }

  lemma {:induction false} NotifyKeeps<P, C>(s: State<P, C>, r: Rules<P, C>)
    requires Inv(s, r) && s.phase.Stored?
    ensures Inv(Next(s, Notify, r).value, r)
  {
    var t := s.(updates := s.updates + [s.last], phase := Idle);
    NotifyHandles(s, t, r);
    assert PhaseOk(t, t.seen, r);
    assert Readers(t, r);
  }

  lemma {:induction false} NotifyHandles<P, C>(s: State<P, C>, t: State<P, C>, r: Rules<P, C>)
    requires Inv(s, r) && s.phase.Stored? && t == s.(updates := s.updates + [s.last], phase := Idle)
    ensures Handled(t, r) == t.seen && t.updates == Distinct(t.seen)
  {
    var h := Handled(s, r);
    DistinctMore(h, s.last);
    assert t.seen == h + [s.last];
  }

  lemma {:induction false} CurrentGenuine<P, C>(s: State<P, C>, r: Rules<P, C>)
    requires Inv(s, r)
    ensures Genuine(s.current.value, s.seen, r)
  {
    var i :| 0 <= i < |s.seen| && s.seen[i] == s.shown;
  }

  lemma {:induction false} LoadKeeps<P, C>(s: State<P, C>, id: nat, r: Rules<P, C>)
    requires Inv(s, r)
    ensures Next(s, Load(id), r).Some? && Inv(Next(s, Load(id), r).value, r)
  {
    var t := s.(loaded := s.loaded[id := s.current.value]);
    CurrentGenuine(s, r);
    assert Handled(t, r) == Handled(s, r) && PhaseOk(t, Handled(t, r), r);
    assert Readers(t, r);
  }

  lemma {:induction false} StoreKeeps<P, C>(s: State<P, C>, r: Rules<P, C>)
    requires Inv(s, r) && s.phase.Replaced?
    ensures Inv(Next(s, Store, r).value, r)
  {
    assert s.seen[|s.seen| - 1] == s.last;
  }

  lemma {:induction false} AnswerKeeps<P, C>(s: State<P, C>, id: nat, ctx: C, r: Rules<P, C>)
    requires Inv(s, r) && id in s.loaded
    ensures Inv(Next(s, Answer(id, ctx), r).value, r)
  {
    var t := Next(s, Answer(id, ctx), r).value;
    assert Handled(t, r) == Handled(s, r);
  }

  lemma {:induction false} FileKeeps<P, C>(s: State<P, C>, disk: Option<string>, r: Rules<P, C>)
    requires Inv(s, r)
    ensures Inv(s.(disk := disk), r)
  {
    assert Handled(s.(disk := disk), r) == Handled(s, r);
  }

  lemma {:induction false} StepKeeps<P, C>(s: State<P, C>, e: Event<C>, r: Rules<P, C>)
    requires Inv(s, r) && Next(s, e, r).Some?
    ensures Inv(Next(s, e, r).value, r)
  {
    match e {
      case FileChanges(disk) => FileKeeps(s, disk, r);
      case Tick => if s.disk.Some? { TickKeeps(s, r); }
      case Check => CheckKeeps(s, r);
      case Store => StoreKeeps(s, r);
      case Notify => NotifyKeeps(s, r);
      case Load(id) => LoadKeeps(s, id, r);
      case Answer(id, ctx) => AnswerKeeps(s, id, ctx, r);
    }
  }

  /** The state after a sequence of events; None when one of them could not happen. */
  function After<P, C>(s: State<P, C>, es: seq<Event<C>>, r: Rules<P, C>): Option<State<P, C>> {
    if es == [] then Some(s)
    else match After(s, es[..|es| - 1], r)
      case None => None
      case Some(t) => Next(t, es[|es| - 1], r)
  }

  lemma {:induction false} RunKeeps<P, C>(s: State<P, C>, es: seq<Event<C>>, r: Rules<P, C>)
    requires Inv(s, r) && After(s, es, r).Some?
    ensures Inv(After(s, es, r).value, r)
  {
    if es != [] {
      RunKeeps(s, es[..|es| - 1], r);
      StepKeeps(After(s, es[..|es| - 1], r).value, es[|es| - 1], r);
    }
  }

  /** From valid first content, over every interleaving: a policy is always in force and it
      is the parse of valid content that was read; between reloads it is the parse of `last`
      and the updates are the valid contents read without adjacent duplicates; and every
      verdict is that of one whole policy. */
  lemma {:induction false} WatcherSafe<P, C>(first: string, policy: P, es: seq<Event<C>>, r: Rules<P, C>)
    requires r.parse(first) == Some(policy) && After(Start(first, policy), es, r).Some?
    ensures var s := After(Start<P, C>(first, policy), es, r).value;
      && s.current.Some? && Genuine(s.current.value, s.seen, r)
      && (s.phase.Idle? ==> s.current == r.parse(s.last) && s.updates == Distinct(s.seen))
      && s.updates <= Distinct(s.seen) && (forall i :: 0 < i < |s.updates| ==> s.updates[i - 1] != s.updates[i])
      && (forall v :: v in s.verdicts ==> Genuine(v.policy, s.seen, r) && v.allowed == r.allows(v.policy, v.ctx))
  {
    StartInv(first, policy, r);
    RunKeeps(Start(first, policy), es, r);
    var s := After(Start<P, C>(first, policy), es, r).value;
    CurrentGenuine(s, r);
    DistinctIs(s.seen);
    if Handled(s, r) != s.seen {
      DistinctMore(Handled(s, r), s.seen[|s.seen| - 1]);
      assert s.seen == Handled(s, r) + [s.seen[|s.seen| - 1]];
    }
  }

  /** Readers never have to wait: a load is possible in every state of a run. */
  lemma {:induction false} AlwaysLoadable<P, C>(first: string, policy: P, es: seq<Event<C>>, id: nat, r: Rules<P, C>)
    requires r.parse(first) == Some(policy) && After(Start(first, policy), es, r).Some?
    ensures After(Start(first, policy), es + [Load(id)], r).Some?
  {
    StartInv(first, policy, r);
    RunKeeps(Start(first, policy), es, r);
    assert (es + [Load(id)])[..|es|] == es;
    LoadKeeps(After(Start(first, policy), es, r).value, id, r);
  }

  /** A reload that nothing interrupts does what Reload does. */
  lemma {:induction false} ReloadInSteps<P, C>(s: State<P, C>, data: string, r: Rules<P, C>) returns (es: seq<Event<C>>)
    requires s.phase.Idle?
    ensures After(s, es, r).Some?
    ensures var t := After(s, es, r).value;
      t.phase.Idle? &&
      if data != s.last && r.parse(data).Some?
      then t.last == data && t.current == r.parse(data) && t.updates == s.updates + [data]
      else t.last == s.last && t.current == s.current && t.updates == s.updates
  {
    var disk: Option<string> := Some(data);
    es := [FileChanges(disk), Tick, Check];
    var a := s.(disk := disk);
    var b := Next(a, Tick, r).value;
    var c := Next(b, Check, r).value;
    var one: seq<Event<C>>, two: seq<Event<C>> := [FileChanges(disk)], [FileChanges(disk), Tick];
    AfterOne(s, [], FileChanges(disk), r);
    AfterOne(s, one, Tick, r);
    AfterOne(s, two, Check, r);
    assert [] + one == one && one + [Tick] == two && two + [Check] == es;
    if data != s.last && r.parse(data).Some? {
      AfterOne(s, es, Store, r);
      AfterOne(s, es + [Store], Notify, r);
      es := es + [Store] + [Notify];
    }
  }

  lemma {:induction false} AfterOne<P, C>(s: State<P, C>, es: seq<Event<C>>, e: Event<C>, r: Rules<P, C>)
    ensures After(s, es + [e], r) == match After(s, es, r) case None => None case Some(t) => Next(t, e, r)
  {
    assert (es + [e])[..|es|] == es;
  }

  /** An empty first file is taken for unchanged: construction succeeds without a policy. */
  method EmptyFirstFile<P, C>(rules: Rules<P, C>, ctx: C) returns (allowed: Option<bool>)
    ensures allowed == None
  {
    var r := NewFileWatcher(rules, "policy.json", 1, Some(""));
    allowed := r.value.IsAuthorized(ctx);
  }
}
