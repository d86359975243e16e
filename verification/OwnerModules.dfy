/**
 * Owner modules per TO2 session: a pull iterator over the service-info configuration, one per
 * session token, driven by NextModule until CleanupModules drops it.
 */
module OwnerModules {
  import opened Wrappers
  import opened ServiceInfo

  type Token = string

  /** What happens when the generator reaches an item: it yields, skips it, or ends. */
  datatype Outcome = Yield | Skip | Abort

  /** The outside world at one NextModule call: opening files, creating directories, the GUID lookup,
      for the k-th item the call reaches. */
  type World = (nat, Item) -> Outcome

  /** Only an upload can end the generator, and a wget or a command always yields. */
  function Reaches(w: World, k: nat, i: Item): Outcome {
    match i
    case DownloadItem(_, _, _) => if w(k, i).Yield? then Yield else Skip
    case UploadItem(_, _, _) => w(k, i)
    case WgetItem(_, _, _, _) => Yield
    case CommandItem(_) => Yield
  }

  /** No operation of the configuration has a nil parameter pointer, as after validation. */
  predicate Usable(h: Host, fsims: seq<Op>) { forall i :: 0 <= i < |fsims| ==> ItemsOf(h, fsims[i]).Some? }

  /** A configuration that passed validation is usable: the iterator's precondition is what validate establishes. */
  lemma ValidatedUsable(h: Host, defaults: seq<Default>, before: seq<Op>, fsims: seq<Op>)
    requires |before| == |fsims|
    requires forall i :: 0 <= i < |fsims| ==> ValidateOp(h, defaults, before[i]) == (true, fsims[i])
    ensures Usable(h, fsims)
  {
    forall i | 0 <= i < |fsims|
      ensures ItemsOf(h, fsims[i]).Some?
    {
      ValidatedOpUsable(h, defaults, before[i], fsims[i]);
    }
  }

  /** The owner command: validate the configuration, then serve with the operations it left behind. */
  method StartOwner(config: Config) returns (machines: Option<ModuleStateMachines>)
    modifies config`fsims
    ensures machines.Some? ==> fresh(machines.value) && machines.value.Valid() && machines.value.states == map[]
    ensures machines.Some? ==> machines.value.h == config.h && machines.value.fsims == config.fsims
    ensures machines.Some? ==>
              |config.fsims| == |old(config.fsims)|
              && forall i :: 0 <= i < |config.fsims| ==>
                   ValidateOp(config.h, config.defaults, old(config.fsims)[i]) == (true, config.fsims[i])
  {
    var ok := config.Validate();
    if !ok {
      return None;
    }
    ValidatedUsable(config.h, config.defaults, old(config.fsims), config.fsims);
    var m := new ModuleStateMachines(config.h, config.fsims);
    return Some(m);
  }

  function OpItems(h: Host, op: Op, modules: seq<string>): seq<Item>
    requires ItemsOf(h, op).Some?
  {
    if op.fsim in modules then ItemsOf(h, op).value else []
  }

  /** The configuration flattened over the FSIMs the device supports. */
  function Plan(h: Host, fsims: seq<Op>, modules: seq<string>): seq<Item>
    requires Usable(h, fsims)
  {
    if fsims == [] then []
    else OpItems(h, fsims[0], modules) + Plan(h, fsims[1..], modules)
  }

  /** The FSIM whose module an item starts. */
  predicate Supported(item: Item, modules: seq<string>) {
    match item
    case DownloadItem(_, _, _) => "fdo.download" in modules
    case UploadItem(_, _, _) => "fdo.upload" in modules
    case WgetItem(_, _, _, _) => "fdo.wget" in modules
    case CommandItem(_) => "fdo.command" in modules
  }

  lemma {:induction false} WgetsOnly(h: Host, dir: string, files: seq<WgetFile>)
    ensures forall i :: 0 <= i < |WgetItems(h, dir, files)| ==> WgetItems(h, dir, files)[i].WgetItem?
  {
    if files != [] { WgetsOnly(h, dir, files[1..]); }
  }

  lemma OpItemsSupported(h: Host, op: Op, modules: seq<string>)
    requires ItemsOf(h, op).Some?
    ensures forall i :: 0 <= i < |OpItems(h, op, modules)| ==> Supported(OpItems(h, op, modules)[i], modules)
  {
    if op.fsim == WGET { WgetsOnly(h, op.wget.value.dir, op.wget.value.files); }
  }

  /** A device gets only modules that it listed. */
  lemma {:induction false} PlanSupported(h: Host, fsims: seq<Op>, modules: seq<string>)
    requires Usable(h, fsims)
    ensures forall i :: 0 <= i < |Plan(h, fsims, modules)| ==> Supported(Plan(h, fsims, modules)[i], modules)
  {
    hide OpItems, Supported;
    if fsims != [] {
      OpItemsSupported(h, fsims[0], modules);
      PlanSupported(h, fsims[1..], modules);
    }
  }

  /**
   * And all of them: the items of an operation whose FSIM the device listed stand together, right
   * after those of the operations before it and right before those of the operations after it; an
   * operation whose FSIM it did not list has none.
   */
  lemma {:induction false} PlanInOrder(h: Host, fsims: seq<Op>, modules: seq<string>, i: nat)
    requires Usable(h, fsims) && i < |fsims|
    ensures Usable(h, fsims[..i]) && Usable(h, fsims[i + 1..]) && ItemsOf(h, fsims[i]).Some? && Usable(h, [])
    ensures Plan(h, [], modules) == []
    ensures Plan(h, fsims, modules)
            == Plan(h, fsims[..i], modules)
               + (if fsims[i].fsim in modules then ItemsOf(h, fsims[i]).value else [])
               + Plan(h, fsims[i + 1..], modules)
  {
    hide ItemsOf;
    if i == 0 {
      assert fsims[..0] == [];
    } else {
      PlanInOrder(h, fsims[1..], modules, i - 1);
      assert fsims[1..][..i - 1] == fsims[..i][1..] && fsims[1..][i - 1] == fsims[i];
      assert fsims[1..][i..] == fsims[i + 1..] && fsims[..i][0] == fsims[0];
      var first, before := OpItems(h, fsims[0], modules), Plan(h, fsims[..i][1..], modules);
      var mine := if fsims[i].fsim in modules then ItemsOf(h, fsims[i]).value else [];
      var after := Plan(h, fsims[i + 1..], modules);
      Associate(first, before, mine, after);
    }
  }

  lemma Associate(a: seq<Item>, b: seq<Item>, c: seq<Item>, d: seq<Item>)
    ensures a + (b + c + d) == a + b + c + d
  {
  }

  /** The number of files of the operations whose FSIM the device listed; a command counts once. */
  function Listed(fsims: seq<Op>, modules: seq<string>): nat {
    if fsims == [] then 0
    else (if fsims[0].fsim in modules then FileCount(fsims[0]) else 0) + Listed(fsims[1..], modules)
  }

  /** After validation the plan drops no file of a listed operation. */
  lemma {:induction false} PlanLength(h: Host, defaults: seq<Default>, before: seq<Op>, fsims: seq<Op>, modules: seq<string>)
    requires |before| == |fsims| && Usable(h, fsims)
    requires forall i :: 0 <= i < |fsims| ==> ValidateOp(h, defaults, before[i]) == (true, fsims[i])
    ensures |Plan(h, fsims, modules)| == Listed(fsims, modules)
  {
    hide ItemsOf, FileCount, ValidateOp;
    if fsims != [] {
      ValidatedOpUsable(h, defaults, before[0], fsims[0]);
      assert forall i :: 0 <= i < |fsims[1..]| ==> ValidateOp(h, defaults, before[1..][i]) == (true, fsims[1..][i]) by {
        assert forall i :: 0 <= i < |fsims[1..]| ==> before[1..][i] == before[i + 1] && fsims[1..][i] == fsims[i + 1];
      }
      PlanLength(h, defaults, before[1..], fsims[1..], modules);
    }
  }

  // The generator ------------------------------------------------------------------------------

  /** Where the generator is suspended: before item `file` of operation `op`. */
  datatype Cursor = Cursor(modules: seq<string>, op: nat, file: nat)

  predicate At(h: Host, fsims: seq<Op>, c: Cursor)
    requires Usable(h, fsims)
  {
    && c.op <= |fsims|
    && (c.op < |fsims| ==> c.file <= |OpItems(h, fsims[c.op], c.modules)|)
    && (c.op == |fsims| ==> c.file == 0)
  }

  /** The items still to come. */
  function Remaining(h: Host, fsims: seq<Op>, c: Cursor): seq<Item>
    requires Usable(h, fsims) && At(h, fsims, c)
  {
    if c.op == |fsims| then []
    else OpItems(h, fsims[c.op], c.modules)[c.file..] + Plan(h, fsims[c.op + 1..], c.modules)
  }

  /** One pull from a list of items, k of them reached before: the item yielded, if any, and the items left. */
  function Pull(items: seq<Item>, w: World, k: nat): (Option<Item>, seq<Item>) {
    if items == [] then (None, [])
    else
      match Reaches(w, k, items[0])
      case Yield => (Some(items[0]), items[1..])
      case Skip => Pull(items[1..], w, k + 1)
      case Abort => (None, [])
  }

  lemma RemainingAtStart(h: Host, fsims: seq<Op>, modules: seq<string>)
    requires Usable(h, fsims)
    ensures At(h, fsims, Cursor(modules, 0, 0))
    ensures Remaining(h, fsims, Cursor(modules, 0, 0)) == Plan(h, fsims, modules)
  {
    if fsims != [] {
      var items := OpItems(h, fsims[0], modules);
      assert items[0..] == items;
    }
  }

  lemma RemainingNextOp(h: Host, fsims: seq<Op>, c: Cursor)
    requires Usable(h, fsims) && At(h, fsims, c) && c.op < |fsims|
    requires c.file == |OpItems(h, fsims[c.op], c.modules)|
    ensures At(h, fsims, Cursor(c.modules, c.op + 1, 0))
    ensures Remaining(h, fsims, c) == Remaining(h, fsims, Cursor(c.modules, c.op + 1, 0))
  {
    var rest := fsims[c.op + 1..];
    if rest != [] {
      assert rest[0] == fsims[c.op + 1] && rest[1..] == fsims[c.op + 2..];
      var items := OpItems(h, rest[0], c.modules);
      assert items[0..] == items;
    }
  }

  lemma RemainingNextFile(h: Host, fsims: seq<Op>, c: Cursor)
    requires Usable(h, fsims) && At(h, fsims, c) && c.op < |fsims|
    requires c.file < |OpItems(h, fsims[c.op], c.modules)|
    ensures At(h, fsims, c.(file := c.file + 1))
    ensures Remaining(h, fsims, c)
            == [OpItems(h, fsims[c.op], c.modules)[c.file]] + Remaining(h, fsims, c.(file := c.file + 1))
  {
    hide ItemsOf, OpItems, Plan;
    var items, rest := OpItems(h, fsims[c.op], c.modules), Plan(h, fsims[c.op + 1..], c.modules);
    assert items[c.file..] == [items[c.file]] + items[c.file + 1..];
    assert [items[c.file]] + items[c.file + 1..] + rest == [items[c.file]] + (items[c.file + 1..] + rest);
  }

  /** Resume the generator until it yields or ends: the nested loops of ownerModules. */
  method Resume(h: Host, fsims: seq<Op>, start: Cursor, w: World) returns (item: Option<Item>, c: Cursor)
    requires Usable(h, fsims) && At(h, fsims, start)
    ensures At(h, fsims, c) && c.modules == start.modules
    ensures (item, Remaining(h, fsims, c)) == Pull(Remaining(h, fsims, start), w, 0)
  {
    c := start;
    var k := 0;
    while c.op < |fsims|
      invariant At(h, fsims, c) && c.modules == start.modules
      invariant Pull(Remaining(h, fsims, start), w, 0) == Pull(Remaining(h, fsims, c), w, k)
      decreases |fsims| - c.op, if c.op < |fsims| then |OpItems(h, fsims[c.op], c.modules)| - c.file else 0
    {
      var items := OpItems(h, fsims[c.op], c.modules);
      if c.file == |items| {
        RemainingNextOp(h, fsims, c);
        c := Cursor(c.modules, c.op + 1, 0);
      } else {
        var i := items[c.file];
        RemainingNextFile(h, fsims, c);
        var next := c.(file := c.file + 1);
        assert ([i] + Remaining(h, fsims, next))[1..] == Remaining(h, fsims, next);
        match Reaches(w, k, i) {
          case Yield =>
            return Some(i), next;
          case Skip =>
            c := next;
            k := k + 1;
          case Abort =>
            return None, Cursor(c.modules, |fsims|, 0);
        }
      }
    }
    item := None;
  }

  // Per-session machines -----------------------------------------------------------------------

  /** A session's machine: the module last returned, and what is left. */
  datatype Machine = Machine(current: Option<Item>, rest: seq<Item>)

  type Machines = map<Token, Machine>

  /** Devmod is None when reading the device's module list fails. */
  datatype Call =
    | Next(token: Token, devmod: Option<seq<string>>, w: World)
    | Cleanup(token: Token)

  datatype Reply = NoModules | Module(item: Item) | Done | Cleaned

  /** One call on the machine of its own token. */
  function Answer(h: Host, fsims: seq<Op>, m: Option<Machine>, c: Call): (Reply, Option<Machine>)
    requires Usable(h, fsims)
  {
    match c
    case Cleanup(_) => (Cleaned, None)
    case Next(_, devmod, w) =>
      if m.None? && devmod.None? then (NoModules, None)
      else
        var (item, rest) := Pull(if m.Some? then m.value.rest else Plan(h, fsims, devmod.value), w, 0);
        (if item.Some? then Module(item.value) else Done, Some(Machine(item, rest)))
  }

  function Get(ms: Machines, t: Token): Option<Machine> { if t in ms then Some(ms[t]) else None }

  function Put(ms: Machines, t: Token, m: Option<Machine>): Machines {
    match m case Some(m) => ms[t := m] case None => ms - {t}
  }

  class ModuleStateMachines {
    const h: Host
    const fsims: seq<Op>
    var states: map<Token, (Option<Item>, Cursor)>

    ghost predicate Valid()
      reads this
    {
      Usable(h, fsims) && forall t :: t in states ==> At(h, fsims, states[t].1)
    }

    /** The machine of a token, with the items its cursor still has to come. */
    ghost function View(t: Token): Option<Machine>
      reads this
      requires Valid()
    {
      if t in states then Some(Machine(states[t].0, Remaining(h, fsims, states[t].1))) else None
    }

    constructor (h: Host, fsims: seq<Op>)
      requires Usable(h, fsims)
      ensures Valid() && this.h == h && this.fsims == fsims && states == map[]
    {
      this.h := h;
      this.fsims := fsims;
      states := map[];
    }

    /** NextModule: create the token's machine on its first call, then pull once. */
    method NextModule(t: Token, devmod: Option<seq<string>>, w: World) returns (reply: Reply)
      requires Valid()
      modifies this
      ensures Valid()
      ensures (reply, View(t)) == Answer(h, fsims, old(View(t)), Next(t, devmod, w))
      ensures forall u :: u != t ==> (u in states <==> u in old(states)) && (u in states ==> states[u] == old(states[u]))
    {
      var cursor;
      if t in states {
        cursor := states[t].1;
      } else {
        if devmod.None? {
          return NoModules;
        }
        RemainingAtStart(h, fsims, devmod.value);
        cursor := Cursor(devmod.value, 0, 0);
      }
      var item, c := Resume(h, fsims, cursor, w);
      states := states[t := (item, c)];
      return if item.Some? then Module(item.value) else Done;
    }

    /** Module: what the last NextModule of the token returned. */
    method Current(t: Token) returns (known: bool, item: Option<Item>)
      requires Valid()
      ensures known == View(t).Some?
      ensures known ==> item == View(t).value.current
    {
      if t !in states {
        return false, None;
      }
      return true, states[t].0;
    }

    method CleanupModules(t: Token)
      requires Valid()
      modifies this
      ensures Valid() && states == old(states) - {t} && View(t).None?
    {
      states := states - {t};
    }
  }

  // Runs ---------------------------------------------------------------------------------------

  function Run(h: Host, fsims: seq<Op>, calls: seq<Call>): (Machines, seq<Reply>)
    requires Usable(h, fsims)
  {
    if calls == [] then (map[], [])
    else
      var (ms, replies) := Run(h, fsims, calls[..|calls| - 1]);
      var c := calls[|calls| - 1];
      var (reply, m) := Answer(h, fsims, Get(ms, c.token), c);
      (Put(ms, c.token, m), replies + [reply])
  }

  /** The calls under one token, and the replies they got. */
  function CallsOf(calls: seq<Call>, t: Token): seq<Call> {
    if calls == [] then []
    else
      var c := calls[|calls| - 1];
      CallsOf(calls[..|calls| - 1], t) + if c.token == t then [c] else []
  }

  function RepliesTo(calls: seq<Call>, replies: seq<Reply>, t: Token): seq<Reply>
    requires |calls| == |replies|
  {
    if calls == [] then []
    else
      var n := |calls| - 1;
      RepliesTo(calls[..n], replies[..n], t) + if calls[n].token == t then [replies[n]] else []
  }

  /** Sessions do not affect each other: a token gets the replies it would get alone. */
  lemma {:induction false} SessionsIndependent(h: Host, fsims: seq<Op>, calls: seq<Call>, t: Token)
    requires Usable(h, fsims)
    ensures var (ms, replies) := Run(h, fsims, calls);
            var (alone, own) := Run(h, fsims, CallsOf(calls, t));
            |replies| == |calls| && RepliesTo(calls, replies, t) == own && Get(ms, t) == Get(alone, t)
    decreases |calls|
  {
    hide Answer;
    if calls != [] {
      var n := |calls| - 1;
      SessionsIndependent(h, fsims, calls[..n], t);
      var (ms, replies) := Run(h, fsims, calls);
      assert replies[..n] == Run(h, fsims, calls[..n]).1;
      var before := CallsOf(calls[..n], t);
      if calls[n].token == t {
        assert (before + [calls[n]])[..|before|] == before;
      } else {
        assert before + [] == before;
        assert RepliesTo(calls[..n], replies[..n], t) + [] == RepliesTo(calls[..n], replies[..n], t);
      }
    }
  }

  // One session's modules ----------------------------------------------------------------------

  /** The pulls of one session after its machine is made: what each call returns, and what is left. */
  function Pulls(items: seq<Item>, ws: seq<World>): (seq<Option<Item>>, seq<Item>) {
    if ws == [] then ([], items)
    else
      var (got, rest) := Pulls(items, ws[..|ws| - 1]);
      var (item, rest') := Pull(rest, ws[|ws| - 1], 0);
      (got + [item], rest')
  }

  function Yielded(got: seq<Option<Item>>): seq<Item> {
    if got == [] then []
    else
      var last := got[|got| - 1];
      Yielded(got[..|got| - 1]) + if last.Some? then [last.value] else []
  }

  /** xs is obtained from ys by leaving items out, in order. */
  ghost predicate Subsequence(xs: seq<Item>, ys: seq<Item>) {
    if xs == [] then true
    else if ys == [] then false
    else (xs[|xs| - 1] == ys[|ys| - 1] && Subsequence(xs[..|xs| - 1], ys[..|ys| - 1]))
         || Subsequence(xs, ys[..|ys| - 1])
  }

  /** The places in ys of the items of xs, in order. */
  lemma {:induction false} PlacesOf(xs: seq<Item>, ys: seq<Item>) returns (ks: seq<nat>)
    requires Subsequence(xs, ys)
    ensures |ks| == |xs| && forall i :: 0 <= i < |xs| ==> ks[i] < |ys| && ys[ks[i]] == xs[i]
    ensures forall i, j :: 0 <= i < j < |ks| ==> ks[i] < ks[j]
    decreases |ys|
  {
    if xs == [] {
      return [];
    }
    var m, n := |xs| - 1, |ys| - 1;
    if xs[m] == ys[n] && Subsequence(xs[..m], ys[..n]) {
      ks := PlacesOf(xs[..m], ys[..n]);
      ks := ks + [n];
    } else {
      ks := PlacesOf(xs, ys[..n]);
    }
  }

  lemma {:induction false} SubsequenceExtend(xs: seq<Item>, ys: seq<Item>, more: seq<Item>)
    requires Subsequence(xs, ys)
    ensures Subsequence(xs, ys + more)
    decreases |more|
  {
    if more == [] {
      assert ys + more == ys;
    } else {
      var n := |more| - 1;
      SubsequenceExtend(xs, ys, more[..n]);
      assert (ys + more)[..|ys + more| - 1] == ys + more[..n];
    }
  }

  lemma SubsequenceSnoc(xs: seq<Item>, ys: seq<Item>, x: Item)
    requires Subsequence(xs, ys)
    ensures Subsequence(xs + [x], ys + [x])
  {
    assert (xs + [x])[..|xs|] == xs && (ys + [x])[..|ys|] == ys;
  }

  /** A pull drops a prefix of the items, and what it yields is the last item dropped. */
  lemma {:induction false} PullDrops(items: seq<Item>, w: World, k: nat) returns (n: nat)
    ensures n <= |items|
    ensures var (item, rest) := Pull(items, w, k);
            if item.Some? then n > 0 && item.value == items[n - 1] && rest == items[n..]
            else n == |items| && rest == []
  {
    if items == [] {
      n := 0;
    } else {
      match Reaches(w, k, items[0]) {
        case Yield => n := 1;
        case Skip =>
          var m := PullDrops(items[1..], w, k + 1);
          n := m + 1;
          assert items[1..][m..] == items[n..];
        case Abort => n := |items|;
      }
    }
  }

  /** Going on from a subsequence of a prefix to a later prefix, with one more item at its end. */
  lemma FollowYield(items: seq<Item>, got: seq<Item>, u: nat, used: nat)
    requires u < used <= |items| && Subsequence(got, items[..u])
    ensures Subsequence(got + [items[used - 1]], items[..used])
  {
    hide Subsequence;
    FollowSkip(items, got, u, used - 1);
    SubsequenceSnoc(got, items[..used - 1], items[used - 1]);
    assert items[..used - 1] + [items[used - 1]] == items[..used];
  }

  lemma FollowSkip(items: seq<Item>, got: seq<Item>, u: nat, used: nat)
    requires u <= used <= |items| && Subsequence(got, items[..u])
    ensures Subsequence(got, items[..used])
  {
    hide Subsequence;
    SubsequenceExtend(got, items[..u], items[u..used]);
    assert items[..u] + items[u..used] == items[..used];
  }

  /**
   * The modules of a session, in order, are a subsequence of the plan, and what is left is a suffix
   * of it.
   */
  lemma {:induction false} ModulesFollowPlan(items: seq<Item>, ws: seq<World>) returns (used: nat)
    ensures used <= |items| && Pulls(items, ws).1 == items[used..]
    ensures Subsequence(Yielded(Pulls(items, ws).0), items[..used])
    decreases |ws|
  {
    if ws == [] {
      used := 0;
    } else {
      hide Subsequence, Pull;
      var n := |ws| - 1;
      var u := ModulesFollowPlan(items, ws[..n]);
      var (got, rest) := Pulls(items, ws[..n]);
      var d := PullDrops(rest, ws[n], 0);
      var item := Pull(rest, ws[n], 0).0;
      used := u + d;
      assert items[u..][d..] == items[used..];
      assert (got + [item])[..|got|] == got;
      if item.Some? {
        FollowYield(items, Yielded(got), u, used);
      } else {
        FollowSkip(items, Yielded(got), u, used);
        assert Yielded(got) + [] == Yielded(got);
      }
    }
  }

  ghost predicate AllYield(items: seq<Item>, w: World) {
    forall i, k: nat :: 0 <= i < |items| ==> Reaches(w, k, items[i]).Yield?
  }

  /** When no file operation or lookup fails, call k returns item k of the plan, then nothing more. */
  lemma {:induction false} ModulesEqualPlan(items: seq<Item>, ws: seq<World>)
    requires forall k :: 0 <= k < |ws| ==> AllYield(items, ws[k])
    ensures var (got, rest) := Pulls(items, ws);
            && |got| == |ws|
            && rest == (if |ws| <= |items| then items[|ws|..] else [])
            && forall k :: 0 <= k < |ws| ==> got[k] == if k < |items| then Some(items[k]) else None
    decreases |ws|
  {
    if ws != [] {
      var n := |ws| - 1;
      ModulesEqualPlan(items, ws[..n]);
      var (got, rest) := Pulls(items, ws[..n]);
      assert AllYield(items, ws[n]);
      if n < |items| {
        assert rest[0] == items[n] && rest[1..] == items[n + 1..];
      }
    }
  }

  /** Once a call returns no module, every later one does too, until the session is cleaned up. */
  lemma {:induction false} DoneForever(items: seq<Item>, ws: seq<World>, i: nat, j: nat)
    requires i <= j < |ws| && |Pulls(items, ws).0| == |ws| && Pulls(items, ws).0[i].None?
    ensures Pulls(items, ws).0[j].None?
    ensures i < |ws| ==> Pulls(items, ws).1 == []
    decreases |ws|
  {
    var n := |ws| - 1;
    var (got, rest) := Pulls(items, ws[..n]);
    var d := PullDrops(rest, ws[n], 0);
    PullsLength(items, ws[..n]);
    if i < n {
      assert got[i] == Pulls(items, ws).0[i];
      DoneForever(items, ws[..n], i, if j < n then j else i);
    }
  }

  lemma {:induction false} PullsLength(items: seq<Item>, ws: seq<World>)
    ensures |Pulls(items, ws).0| == |ws|
    decreases |ws|
  {
    if ws != [] { PullsLength(items, ws[..|ws| - 1]); }
  }

  // Both together ------------------------------------------------------------------------------

  function Worlds(seg: seq<Call>): (ws: seq<World>)
    requires forall i :: 0 <= i < |seg| ==> seg[i].Next?
    ensures |ws| == |seg|
  {
    seq(|seg|, i requires 0 <= i < |seg| => seg[i].w)
  }

  function AsReply(item: Option<Item>): Reply { if item.Some? then Module(item.value) else Done }

  /** A session's NextModule calls: all under t, the first with the device's module list. */
  predicate IsSession(seg: seq<Call>, t: Token, modules: seq<string>) {
    && (forall i :: 0 <= i < |seg| ==> seg[i].Next? && seg[i].token == t)
    && (seg != [] ==> seg[0].devmod == Some(modules))
  }

  lemma {:induction false} SessionPulls(h: Host, fsims: seq<Op>, pre: seq<Call>, seg: seq<Call>, t: Token,
                                        modules: seq<string>)
    requires Usable(h, fsims) && IsSession(seg, t, modules) && Get(Run(h, fsims, pre).0, t).None?
    ensures var (ms, replies) := Run(h, fsims, pre + seg);
            var (got, rest) := Pulls(Plan(h, fsims, modules), Worlds(seg));
            && |replies| == |pre| + |seg| && |got| == |seg|
            && (forall k :: 0 <= k < |seg| ==> replies[|pre| + k] == AsReply(got[k]))
            && (if seg == [] then Get(ms, t) == None else t in ms && ms[t].rest == rest)
    decreases |seg|
  {
    hide Run, Pull, Plan, Answer;
    if seg == [] {
      assert pre + seg == pre;
      RunLength(h, fsims, pre);
    } else {
      var n := |seg| - 1;
      SessionPulls(h, fsims, pre, seg[..n], t, modules);
      var (ms, replies) := Run(h, fsims, pre + seg[..n]);
      var (got, rest) := Pulls(Plan(h, fsims, modules), Worlds(seg[..n]));
      assert Worlds(seg)[..n] == Worlds(seg[..n]);
      RunSnoc(h, fsims, pre + seg[..n], seg[n]);
      assert pre + seg[..n] + [seg[n]] == pre + seg;
      assert n == 0 ==> rest == Plan(h, fsims, modules) && seg[n].devmod == Some(modules);
      AnswerPulls(h, fsims, Get(ms, t), seg[n], rest);
    }
  }

  lemma RunSnoc(h: Host, fsims: seq<Op>, calls: seq<Call>, c: Call)
    requires Usable(h, fsims)
    ensures var (ms, replies) := Run(h, fsims, calls);
            var (reply, m) := Answer(h, fsims, Get(ms, c.token), c);
            Run(h, fsims, calls + [c]) == (Put(ms, c.token, m), replies + [reply])
  {
    assert (calls + [c])[..|calls|] == calls;
  }

  lemma AnswerPulls(h: Host, fsims: seq<Op>, m: Option<Machine>, c: Call, rest: seq<Item>)
    requires Usable(h, fsims) && c.Next?
    requires if m.Some? then m.value.rest == rest else c.devmod.Some? && Plan(h, fsims, c.devmod.value) == rest
    ensures var (reply, m') := Answer(h, fsims, m, c);
            var (item, rest') := Pull(rest, c.w, 0);
            reply == AsReply(item) && m' == Some(Machine(item, rest'))
  {
  }

  lemma {:induction false} RunLength(h: Host, fsims: seq<Op>, calls: seq<Call>)
    requires Usable(h, fsims)
    ensures |Run(h, fsims, calls).1| == |calls|
    decreases |calls|
  {
    if calls != [] { RunLength(h, fsims, calls[..|calls| - 1]); }
  }

  /**
   * The iterator refines the list. In any interleaving of sessions, take a session's NextModule
   * calls since its machine was last absent: their replies are the pulls from the flattened
   * configuration, whatever the other sessions do. By ModulesFollowPlan these are a subsequence of
   * it in order, by ModulesEqualPlan the list itself when nothing fails, and by DoneForever they
   * stay exhausted.
   */
  lemma SessionSeesPlan(h: Host, fsims: seq<Op>, calls: seq<Call>, t: Token, pre: seq<Call>, seg: seq<Call>,
                        modules: seq<string>, k: nat)
    requires Usable(h, fsims) && CallsOf(calls, t) == pre + seg && k < |seg|
    requires IsSession(seg, t, modules) && Get(Run(h, fsims, pre).0, t).None?
    ensures |Run(h, fsims, calls).1| == |calls|
    ensures var replies := RepliesTo(calls, Run(h, fsims, calls).1, t);
            var got := Pulls(Plan(h, fsims, modules), Worlds(seg)).0;
            |replies| == |pre| + |seg| && |got| == |seg| && replies[|pre| + k] == AsReply(got[k])
  {
    SessionsIndependent(h, fsims, calls, t);
    SessionPulls(h, fsims, pre, seg, t, modules);
  }

  /** In any interleaving, every module a session gets is one its device listed. */
  lemma RepliesSupported(h: Host, fsims: seq<Op>, calls: seq<Call>, t: Token, pre: seq<Call>, seg: seq<Call>,
                         modules: seq<string>, k: nat)
    requires Usable(h, fsims) && CallsOf(calls, t) == pre + seg && k < |seg|
    requires IsSession(seg, t, modules) && Get(Run(h, fsims, pre).0, t).None?
    ensures |Run(h, fsims, calls).1| == |calls|
    ensures var replies := RepliesTo(calls, Run(h, fsims, calls).1, t);
            && |replies| == |pre| + |seg|
            && var reply := replies[|pre| + k];
               (reply.Module? ==> reply.item in Plan(h, fsims, modules) && Supported(reply.item, modules))
               && (reply.Module? || reply.Done?)
  {
    hide Run, Plan, Pulls, Supported;
    SessionSeesPlan(h, fsims, calls, t, pre, seg, modules, k);
    var plan := Plan(h, fsims, modules);
    var got := Pulls(plan, Worlds(seg)).0;
    if got[k].Some? {
      YieldedFromPlan(plan, Worlds(seg), k);
      PlanSupported(h, fsims, modules);
    }
  }

  lemma {:induction false} YieldedFromPlan(items: seq<Item>, ws: seq<World>, k: nat)
    requires k < |ws| && |Pulls(items, ws).0| == |ws| && Pulls(items, ws).0[k].Some?
    ensures Pulls(items, ws).0[k].value in items
    decreases |ws|
  {
    hide Pull;
    var n := |ws| - 1;
    PullsLength(items, ws[..n]);
    var (got, rest) := Pulls(items, ws[..n]);
    if k < n {
      assert got[k] == Pulls(items, ws).0[k];
      YieldedFromPlan(items, ws[..n], k);
    } else {
      var u := ModulesFollowPlan(items, ws[..n]);
      var d := PullDrops(rest, ws[n], 0);
      assert items[u..][d - 1] == items[u + d - 1];
    }
  }

  /**
   * One pull, from the outcomes alone: it yields the first item that the outside world lets through.
   * A download that cannot be opened is passed over, an upload whose directory cannot be made is too,
   * an upload whose GUID lookup fails ends the session's modules, a wget or a command always comes.
   */
  lemma {:induction false} PullExactly(items: seq<Item>, w: World, k: nat, j: nat)
    requires j <= |items|
    requires forall i :: 0 <= i < j ==>
               (items[i].DownloadItem? && !w(k + i, items[i]).Yield?) || (items[i].UploadItem? && w(k + i, items[i]).Skip?)
    ensures j == |items| ==> Pull(items, w, k) == (None, [])
    ensures j < |items| && (items[j].WgetItem? || items[j].CommandItem? || w(k + j, items[j]).Yield?)
            ==> Pull(items, w, k) == (Some(items[j]), items[j + 1..])
    ensures j < |items| && items[j].UploadItem? && w(k + j, items[j]).Abort? ==> Pull(items, w, k) == (None, [])
  {
    if j > 0 {
      assert items[0] == items[0 + 0];
      assert Reaches(w, k, items[0]).Skip? by {
        assert (items[0].DownloadItem? && !w(k + 0, items[0]).Yield?) || (items[0].UploadItem? && w(k + 0, items[0]).Skip?);
      }
      assert forall i :: 0 <= i < j - 1 ==> items[1..][i] == items[i + 1] && k + 1 + i == k + (i + 1);
      PullExactly(items[1..], w, k + 1, j - 1);
      assert j < |items| ==> items[1..][j - 1] == items[j] && items[1..][j..] == items[j + 1..];
    }
  }

  /** Cleaning a session up forgets its machine, and a device whose list cannot be read gets none. */
  lemma SessionEnds(h: Host, fsims: seq<Op>, calls: seq<Call>, t: Token, w: World)
    requires Usable(h, fsims)
    ensures var (ms, replies) := Run(h, fsims, calls + [Cleanup(t)]);
            Get(ms, t).None? && |replies| > 0 && replies[|replies| - 1] == Cleaned
    ensures Get(Run(h, fsims, calls).0, t).None? ==>
              var (ms, replies) := Run(h, fsims, calls + [Next(t, None, w)]);
              Get(ms, t).None? && |replies| > 0 && replies[|replies| - 1] == NoModules
  {
    hide Run;
    RunSnoc(h, fsims, calls, Cleanup(t));
    RunSnoc(h, fsims, calls, Next(t, None, w));
  }
}
