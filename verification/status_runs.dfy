/**
  * Every run of construct, copy, assign and destroy over `Status` variables: the
  * blocks are owned one by one, none leaks or is freed twice, and the variables
  * behave like independent values.
  */
module StatusRuns {
  import opened Words
  import opened Slices
  import opened StatusModel

  /** One statement over named `Status` variables; a name stands for a declared variable. */
  datatype Command =
    | DeclareOk(x: nat)
    | DeclareError(x: nat, code: u8, msg1: seq<u8>, msg2: seq<u8>)
    | DeclareCopy(x: nat, from: nat)
    | Assign(x: nat, from: nat)
    | Destroy(x: nat)

  /** The variables seen as values. */
  type Env = map<nat, Value>

  /** What C++ scoping demands, and that an error is packed inside its block. */
  predicate Allowed(env: Env, c: Command) {
    match c
    case DeclareOk(x) => x !in env
    case DeclareError(x, code, msg1, msg2) =>
      x !in env && 1 <= code <= MAX_CODE && WritesFit(|msg1|, |msg2|)
    case DeclareCopy(x, from) => x !in env && from in env
    case Assign(x, from) => x in env && from in env
    case Destroy(x) => x in env
  }

  function Effect(env: Env, c: Command): Env
    requires Allowed(env, c)
  {
    match c
    case DeclareOk(x) => env[x := Success]
    case DeclareError(x, code, msg1, msg2) => env[x := Error(code, StoredMessage(msg1, msg2))]
    case DeclareCopy(x, from) => env[x := env[from]]
    case Assign(x, from) => env[x := env[from]]
    case Destroy(x) => env - {x}
  }

  predicate AllowedRun(env: Env, cs: seq<Command>)
    decreases |cs|
  {
    cs == [] || (Allowed(env, cs[0]) && AllowedRun(Effect(env, cs[0]), cs[1..]))
  }

  function EffectRun(env: Env, cs: seq<Command>): Env
    requires AllowedRun(env, cs)
    decreases |cs|
  {
    if cs == [] then env else EffectRun(Effect(env, cs[0]), cs[1..])
  }

  /** The variable a command is about. */
  function Target(c: Command): nat {
    match c
    case DeclareOk(x) => x
    case DeclareError(x, _, _, _) => x
    case DeclareCopy(x, _) => x
    case Assign(x, _) => x
    case Destroy(x) => x
  }

  /** A command declares or destroys no other variable, and changes none. */
  lemma EffectOnTarget(env: Env, c: Command, y: nat)
    requires Allowed(env, c)
    ensures y != Target(c) ==> (y in Effect(env, c) <==> y in env)
    ensures y != Target(c) && y in env ==> Effect(env, c)[y] == env[y]
    ensures Target(c) in Effect(env, c) <==> !c.Destroy?
  {
  }

  lemma SingleCommand(env: Env, c: Command)
    requires Allowed(env, c)
    ensures AllowedRun(env, [c]) && EffectRun(env, [c]) == Effect(env, c)
  {
    assert [c][1..] == [];
  }

  function DestroyEach(xs: seq<nat>): seq<Command> {
    if xs == [] then [] else [Destroy(xs[0])] + DestroyEach(xs[1..])
  }

  /** xs lists exactly the declared variables, each once. */
  ghost predicate Lists(xs: seq<nat>, env: Env) {
    (forall x :: x in xs <==> x in env) && (forall i, j :: 0 <= i < j < |xs| ==> xs[i] != xs[j])
  }

  lemma ListsTail(xs: seq<nat>, env: Env)
    requires xs != [] && Lists(xs, env)
    ensures Lists(xs[1..], env - {xs[0]})
  {
    var rest := xs[1..];
    forall x | x in xs && x != xs[0]
      ensures x in rest
    {
      var i :| 0 <= i < |xs| && xs[i] == x;
      assert rest[i - 1] == x;
    }
  }

  /** Destroying the declared variables one by one is allowed and leaves none. */
  lemma {:induction false} DestroyEachEmpties(env: Env, xs: seq<nat>)
    requires Lists(xs, env)
    ensures AllowedRun(env, DestroyEach(xs)) && EffectRun(env, DestroyEach(xs)) == map[]
    decreases |xs|
  {
    if xs == [] {
      assert env == map[];
    } else {
      var cs := DestroyEach(xs);
      assert xs[0] in env && cs[1..] == DestroyEach(xs[1..]);
      ListsTail(xs, env);
      assert Effect(env, cs[0]) == env - {xs[0]};
      DestroyEachEmpties(env - {xs[0]}, xs[1..]);
    }
  }

  /** Hand the value of x on to ys[0], from there to ys[1], and so on, declaring what is not declared yet. */
  function HandOn(env: Env, x: nat, ys: seq<nat>): seq<Command>
    requires x in env
    decreases |ys|
  {
    if ys == [] then []
    else
      var c := if ys[0] in env then Assign(ys[0], x) else DeclareCopy(ys[0], x);
      [c] + HandOn(Effect(env, c), ys[0], ys[1..])
  }

  /** Any chain of copies and assignments delivers the value it started from. */
  lemma {:induction false} ChainKeepsValue(env: Env, x: nat, ys: seq<nat>)
    requires x in env
    ensures AllowedRun(env, HandOn(env, x, ys))
    ensures var after := EffectRun(env, HandOn(env, x, ys));
      var last := if ys == [] then x else ys[|ys| - 1];
      last in after && after[last] == env[x]
    decreases |ys|
  {
    if ys != [] {
      var cs := HandOn(env, x, ys);
      var next := Effect(env, cs[0]);
      assert cs[1..] == HandOn(next, ys[0], ys[1..]);
      ChainKeepsValue(next, ys[0], ys[1..]);
      assert |ys| > 1 ==> ys[1..][|ys| - 2] == ys[|ys| - 1];
    }
  }

  /** The i-th command of a chain takes the value from the variable the command before it gave it to. */
  lemma {:induction false} ChainLinks(env: Env, x: nat, ys: seq<nat>, i: nat)
    requires x in env && i < |ys|
    ensures |HandOn(env, x, ys)| == |ys|
    ensures var from := if i == 0 then x else ys[i - 1];
      HandOn(env, x, ys)[i] == Assign(ys[i], from) || HandOn(env, x, ys)[i] == DeclareCopy(ys[i], from)
    decreases |ys|
  {
    var cs := HandOn(env, x, ys);
    var next, rest := Effect(env, cs[0]), ys[1..];
    assert cs[1..] == HandOn(next, ys[0], rest);
    if rest != [] {
      ChainLinks(next, ys[0], rest, if i == 0 then 0 else i - 1);
      assert i > 0 ==> cs[i] == cs[1..][i - 1] && rest[i - 1] == ys[i];
      assert i > 1 ==> rest[i - 2] == ys[i - 1];
    } else {
      assert HandOn(next, ys[0], rest) == [];
    }
  }

  // ---------- ownership ----------

  /** Which block each variable points to; success points to none. */
  type Pointers = map<nat, array?<u8>>

  predicate PointsTo(ptr: Pointers, x: nat, block: array?<u8>) {
    x in ptr && ptr[x] == block
  }

  /** Every pointer is live, no block has two owners, and every live block has one. */
  ghost predicate Ownership(ptr: Pointers, live: set<array<u8>>) {
    && (forall x :: x in ptr && ptr[x] != null ==> ptr[x] in live)
    && (forall x, y :: x in ptr && y in ptr && x != y && ptr[x] != null ==> ptr[x] != ptr[y])
    && (forall b :: b in live ==> exists x :: PointsTo(ptr, x, b))
  }

  lemma OwnershipRemove(ptr: Pointers, live: set<array<u8>>, x: nat)
    requires Ownership(ptr, live) && x in ptr
    ensures Ownership(ptr - {x}, Without(live, ptr[x]))
  {
    forall b | b in live && b != ptr[x]
      ensures exists y :: PointsTo(ptr - {x}, y, b)
    {
      var y :| PointsTo(ptr, y, b);
      assert PointsTo(ptr - {x}, y, b);
    }
  }

  lemma OwnershipAdd(ptr: Pointers, live: set<array<u8>>, x: nat, block: array?<u8>)
    requires Ownership(ptr, live) && x !in ptr && block !in live
    ensures Ownership(ptr[x := block], With(live, block))
  {
    var after := ptr[x := block];
    forall b | b in live
      ensures exists y :: PointsTo(after, y, b)
    {
      var y :| PointsTo(ptr, y, b);
      assert PointsTo(after, y, b);
    }
    assert PointsTo(after, x, block);
  }

  /** Assignment: the old block goes, the new one comes. */
  lemma OwnershipReplace(ptr: Pointers, live: set<array<u8>>, x: nat, block: array?<u8>)
    requires Ownership(ptr, live) && x in ptr && block !in live
    ensures Ownership(ptr[x := block], With(Without(live, ptr[x]), block))
  {
    OwnershipRemove(ptr, live, x);
    OwnershipAdd(ptr - {x}, Without(live, ptr[x]), x, block);
    assert (ptr - {x})[x := block] == ptr[x := block];
  }

  ghost function Owners(ptr: Pointers): set<nat> {
    set x | x in ptr && ptr[x] != null
  }

  lemma OwnersRemove(ptr: Pointers, x: nat)
    requires x in ptr && ptr[x] != null
    ensures Owners(ptr) == Owners(ptr - {x}) + {x} && x !in Owners(ptr - {x})
  {
  }

  lemma NoOwners(ptr: Pointers)
    requires Ownership(ptr, {})
    ensures Owners(ptr) == {}
  {
  }

  /** Conservation: there are as many live blocks as variables that own one. */
  lemma {:induction false} OwnershipCount(ptr: Pointers, live: set<array<u8>>)
    requires Ownership(ptr, live)
    ensures |live| == |Owners(ptr)|
    decreases |live|
  {
    if live == {} {
      NoOwners(ptr);
    } else {
      var b :| b in live;
      var x :| PointsTo(ptr, x, b);
      OwnersRemove(ptr, x);
      OwnershipRemove(ptr, live, x);
      OwnershipCount(ptr - {x}, live - {b});
    }
  }

  // ---------- runs ----------

  /** The variables as values, seen through their pointers. */
  ghost function ValuesOf(ptr: Pointers): Env
    reads ptr.Values
  {
    map x | x in ptr :: ValueOf(ptr[x])
  }

  lemma ValuesOfUpdate(ptr: Pointers, x: nat, block: array?<u8>)
    ensures ValuesOf(ptr[x := block]) == ValuesOf(ptr)[x := ValueOf(block)]
  {
  }

  lemma ValuesOfRemove(ptr: Pointers, x: nat)
    ensures ValuesOf(ptr - {x}) == ValuesOf(ptr) - {x}
  {
  }

  ghost predicate AllPacked(live: set<array<u8>>)
    reads live
  {
    forall b :: b in live ==> IsPacked(b[..])
  }

  ghost predicate Distinct(vars: map<nat, Status>) {
    forall x, y :: x in vars && y in vars && x != y ==> vars[x] != vars[y]
  }

  lemma DistinctRemove(vars: map<nat, Status>, x: nat)
    requires Distinct(vars)
    ensures Distinct(vars - {x}) && (vars - {x}).Values <= vars.Values
  {
  }

  lemma DistinctUpdate(vars: map<nat, Status>, x: nat, s: Status)
    requires Distinct(vars) && x !in vars && s !in vars.Values
    ensures Distinct(vars[x := s])
  {
  }

  ghost function PointersOf(vars: map<nat, Status>): Pointers
    reads vars.Values
  {
    map x | x in vars :: vars[x].state
  }

  lemma PointersOfUpdate(vars: map<nat, Status>, x: nat, s: Status)
    ensures PointersOf(vars[x := s]) == PointersOf(vars)[x := s.state]
  {
  }

  lemma PointersReplaced(vars: map<nat, Status>, before: Pointers, x: nat)
    requires vars.Keys == before.Keys && x in vars
    requires forall y :: y in vars && y != x ==> PointsTo(before, y, vars[y].state)
    ensures PointersOf(vars) == before[x := vars[x].state]
  {
  }

  lemma PointersOfRemove(vars: map<nat, Status>, x: nat)
    ensures PointersOf(vars - {x}) == PointersOf(vars) - {x}
  {
  }

  ghost function Errors(env: Env): set<nat> {
    set x | x in env && env[x].Error?
  }

  class Program {
    const heap: Allocator
    var vars: map<nat, Status>

    ghost function Pointing(): Pointers
      reads this, vars.Values
    {
      PointersOf(vars)
    }

    ghost predicate Valid()
      reads this, heap, vars.Values, heap.live
    {
      Distinct(vars) && Ownership(Pointing(), heap.live) && AllPacked(heap.live)
    }

    ghost function Abstract(): Env
      reads this, vars.Values, Pointing().Values
    {
      ValuesOf(Pointing())
    }

    constructor ()
      ensures Valid() && Abstract() == map[] && fresh(heap) && vars == map[]
    {
      heap := new Allocator();
      vars := map[];
    }

    /** The variables with one more, which owns a new block or none. */
    lemma Bound(before: Pointers, live: set<array<u8>>, env: Env, x: nat, block: array?<u8>)
      requires x !in before && Ownership(before, live) && block !in live && heap.live == With(live, block)
      requires AllPacked(live) && (block != null ==> IsPacked(block[..]))
      requires Distinct(vars) && Pointing() == before[x := block] && ValuesOf(before) == env
      ensures Valid() && Abstract() == env[x := ValueOf(block)]
    {
      OwnershipAdd(before, live, x, block);
      ValuesOfUpdate(before, x, block);
    }

    /** The declared variable, which stands for v, joins the others. */
    method Bind(x: nat, s: Status, ghost before: Pointers, ghost live: set<array<u8>>, ghost env: Env, ghost v: Value)
      requires x !in vars && s !in vars.Values && Distinct(vars)
      requires before == Pointing() && ValuesOf(before) == env && s.View() == v
      requires Ownership(before, live) && s.state !in live && heap.live == With(live, s.state)
      requires AllPacked(live) && (s.state != null ==> IsPacked(s.state[..]))
      modifies this
      ensures Valid() && vars == old(vars)[x := s]
      ensures Abstract() == env[x := v]
    {
      DistinctUpdate(vars, x, s);
      PointersOfUpdate(vars, x, s);
      vars := vars[x := s];
      Bound(before, live, env, x, s.state);
    }

    method DoDeclareOk(x: nat)
      requires Valid() && x !in vars
      modifies this
      ensures Valid() && Abstract() == old(Abstract())[x := Success]
      ensures fresh(vars.Values - old(vars.Values))
    {
      ghost var before, live, env := Pointing(), heap.live, Abstract();
      var s := new Status.Ok();
      assert before == Pointing() && ValuesOf(before) == env;
      Bind(x, s, before, live, env, Success);
    }

    method DoDeclareError(x: nat, code: u8, msg1: Slice, msg2: Slice)
      requires Valid() && x !in vars && msg1.Valid() && msg2.Valid()
      requires 1 <= code <= MAX_CODE && WritesFit(msg1.size, msg2.size)
      modifies this, heap
      ensures Valid()
      ensures Abstract() == old(Abstract())[x := Error(code, old(StoredMessage(msg1.Contents(), msg2.Contents())))]
      ensures fresh(vars.Values - old(vars.Values))
    {
      ghost var before, live, env := Pointing(), heap.live, Abstract();
      ghost var v := Error(code, StoredMessage(msg1.Contents(), msg2.Contents()));
      var s := new Status.Make(heap, code, msg1, msg2);
      assert before == Pointing() && ValuesOf(before) == env;
      Bind(x, s, before, live, env, v);
    }

    method DoDeclareCopy(x: nat, from: nat)
      requires Valid() && x !in vars && from in vars
      modifies this, heap
      ensures Valid() && Abstract() == old(Abstract())[x := old(Abstract())[from]]
      ensures fresh(vars.Values - old(vars.Values))
    {
      ghost var before, live, env := Pointing(), heap.live, Abstract();
      assert PointsTo(before, from, vars[from].state);
      var s := new Status.Copy(heap, vars[from]);
      assert before == Pointing() && ValuesOf(before) == env;
      Bind(x, s, before, live, env, env[from]);
    }

    /** The assigned variable, with a new block in place of the old one, among the others. */
    lemma Rebound(before: Pointers, live: set<array<u8>>, x: nat, block: array?<u8>)
      requires x in before && Ownership(before, live) && block !in live
      requires heap.live == With(Without(live, before[x]), block)
      requires Distinct(vars) && Pointing() == before[x := block]
      requires AllPacked(live) && (block != null ==> IsPacked(block[..]))
      ensures Valid() && Abstract() == ValuesOf(before)[x := ValueOf(block)]
    {
      OwnershipReplace(before, live, x, block);
      ValuesOfUpdate(before, x, block);
    }

    /** The same, or nothing has happened because the variable was assigned to itself. */
    lemma Reassigned(before: Pointers, live: set<array<u8>>, env: Env, x: nat, from: nat, block: array?<u8>)
      requires x in before && Ownership(before, live) && from in env && env == ValuesOf(before)
      requires x == from ==> block == before[x] && heap.live == live
      requires x != from ==> block !in live && heap.live == With(Without(live, before[x]), block)
      requires Distinct(vars) && Pointing() == before[x := block]
      requires AllPacked(live) && (block != null ==> IsPacked(block[..]))
      requires ValueOf(block) == env[from]
      ensures Valid() && Abstract() == env[x := env[from]]
    {
      if x == from {
        assert before[x := block] == before && env[x := env[from]] == env;
      } else {
        Rebound(before, live, x, block);
      }
    }

    /** The assignment as the pointers see it: `x` gets a new block, unless it was assigned to itself. */
    method Overwrite(x: nat, from: nat, ghost before: Pointers, ghost live: set<array<u8>>)
      returns (ghost block: array?<u8>)
      requires x in vars && from in vars && Distinct(vars) && before == Pointing()
      requires Ownership(before, live) && heap.live == live && AllPacked(live)
      modifies heap, vars[x]
      ensures Pointing() == before[x := block]
      ensures x == from ==> block == before[x] && heap.live == live
      ensures x != from ==> block !in live && heap.live == With(Without(live, before[x]), block)
      ensures (block != null ==> IsPacked(block[..])) && ValueOf(block) == old(ValueOf(before[from]))
    {
      assert PointsTo(before, from, vars[from].state);
      assert PointsTo(before, x, vars[x].state);
      var s := vars[x];
      s.Assign(heap, vars[from]);
      block := s.state;
      forall y | y in vars && y != x
        ensures PointsTo(before, y, vars[y].state)
      {
        assert vars[y] != s;
      }
      PointersReplaced(vars, before, x);
    }

    method DoAssign(x: nat, from: nat)
      requires Valid() && x in vars && from in vars
      modifies this, heap, vars[x]
      ensures Valid() && Abstract() == old(Abstract())[x := old(Abstract())[from]]
      ensures vars == old(vars)
    {
      ghost var before, live, env := Pointing(), heap.live, Abstract();
      assert ValueOf(before[from]) == env[from];
      ghost var block := Overwrite(x, from, before, live);
      assert ValuesOf(before) == env && AllPacked(live);
      Reassigned(before, live, env, x, from, block);
    }

    /** The variables without the destroyed one. */
    lemma Unbound(before: Pointers, live: set<array<u8>>, env: Env, x: nat)
      requires x in before && Ownership(before, live) && ValuesOf(before) == env
      requires heap.live == Without(live, before[x])
      requires Distinct(vars) && Pointing() == before - {x} && AllPacked(heap.live)
      ensures Valid() && Abstract() == env - {x}
    {
      OwnershipRemove(before, live, x);
      ValuesOfRemove(before, x);
    }

    /** The destroyed variable, whose block is gone, leaves the others. */
    method Unbind(x: nat, ghost before: Pointers, ghost live: set<array<u8>>, ghost env: Env)
      requires x in vars && Distinct(vars) && before == Pointing() && ValuesOf(before) == env
      requires Ownership(before, live) && heap.live == Without(live, before[x]) && AllPacked(heap.live)
      modifies this
      ensures Valid() && vars == old(vars) - {x}
      ensures Abstract() == env - {x}
    {
      DistinctRemove(vars, x);
      PointersOfRemove(vars, x);
      vars := vars - {x};
      assert ValuesOf(before) == env;
      Unbound(before, live, env, x);
    }

    method DoDestroy(x: nat)
      requires Valid() && x in vars
      modifies this, heap
      ensures Valid() && Abstract() == old(Abstract()) - {x}
      ensures vars == old(vars) - {x}
    {
      ghost var before, live, env := Pointing(), heap.live, Abstract();
      assert PointsTo(before, x, vars[x].state);
      vars[x].Destroy(heap);
      assert before == Pointing() && ValuesOf(before) == env;
      Unbind(x, before, live, env);
    }

    method ExecuteError(x: nat, code: u8, msg1: seq<u8>, msg2: seq<u8>)
      requires Valid() && x !in vars
      requires 1 <= code <= MAX_CODE && WritesFit(|msg1|, |msg2|)
      modifies this, heap
      ensures Valid() && Abstract() == old(Abstract())[x := Error(code, StoredMessage(msg1, msg2))]
      ensures fresh(vars.Values - old(vars.Values))
    {
      ghost var before, env := Pointing(), Abstract();
      var s1 := SliceOf(msg1);
      var s2 := SliceOf(msg2);
      assert before == Pointing() && ValuesOf(before) == env && AllPacked(heap.live);
      assert Abstract() == env;
      DoDeclareError(x, code, s1, s2);
    }

    /** In every valid state: one live block per error, and only codes 1..8. */
    lemma OneBlockPerError()
      requires Valid()
      ensures |heap.live| == |Errors(Abstract())|
      ensures forall x :: x in Abstract() && Abstract()[x].Error? ==> 1 <= Abstract()[x].code <= MAX_CODE
    {
      var ptr := Pointing();
      OwnershipCount(ptr, heap.live);
      forall x | x in ptr
        ensures ptr[x] != null <==> ValueOf(ptr[x]).Error?
        ensures ptr[x] != null ==> 1 <= ValueOf(ptr[x]).code <= MAX_CODE
      {
        assert ptr[x] != null ==> IsPacked(ptr[x][..]) && ptr[x][4] == ptr[x][..][4];
      }
      assert Owners(ptr) == Errors(Abstract());
    }

    method Execute(c: Command)
      requires Valid() && Allowed(Abstract(), c)
      modifies this, heap, vars.Values
      ensures Valid() && Abstract() == Effect(old(Abstract()), c)
      ensures fresh(vars.Values - old(vars.Values))
    {
      match c
      case DeclareOk(x) => DoDeclareOk(x);
      case DeclareError(x, code, msg1, msg2) => ExecuteError(x, code, msg1, msg2);
      case DeclareCopy(x, from) => DoDeclareCopy(x, from);
      case Assign(x, from) => DoAssign(x, from);
      case Destroy(x) => DoDestroy(x);
    }

    /** Every run keeps ownership, and acts on the variables as on independent values. */
    method Run(cs: seq<Command>)
      requires Valid() && AllowedRun(Abstract(), cs)
      modifies this, heap, vars.Values
      ensures Valid() && Abstract() == EffectRun(old(Abstract()), cs)
      ensures fresh(vars.Values - old(vars.Values))
    {
      for i := 0 to |cs|
        invariant Valid() && AllowedRun(Abstract(), cs[i..])
        invariant EffectRun(Abstract(), cs[i..]) == EffectRun(old(Abstract()), cs)
        invariant fresh(vars.Values - old(vars.Values))
      {
        assert cs[i..][0] == cs[i] && cs[i..][1..] == cs[i + 1..];
        Execute(cs[i]);
      }
    }

    /** Whatever a program did, once every variable is destroyed no block is left. */
    method RunAndDestroyAll(cs: seq<Command>, xs: seq<nat>)
      requires Valid() && AllowedRun(Abstract(), cs) && Lists(xs, EffectRun(Abstract(), cs))
      modifies this, heap, vars.Values
      ensures Valid() && Abstract() == map[] && heap.live == {}
    {
      Run(cs);
      DestroyEachEmpties(Abstract(), xs);
      Run(DestroyEach(xs));
      OneBlockPerError();
      assert Errors(Abstract()) == {};
    }

    /** `ToString` of a variable prints its value. */
    method Print(x: nat) returns (r: seq<u8>)
      requires Valid() && x in vars
      ensures Valid() && Printable(Abstract()[x]) && r == Describe(Abstract()[x])
    {
      assert PointsTo(Pointing(), x, vars[x].state);
      assert vars[x].View() == Abstract()[x];
      r := vars[x].ToString(heap);
    }

    /** Handing x on through any chain of copies and assignments, then printing the last variable. */
    method HandOnAndPrint(x: nat, ys: seq<nat>, cs: seq<Command>) returns (r: seq<u8>)
      requires Valid() && x in vars && cs == HandOn(Abstract(), x, ys)
      modifies this, heap, vars.Values
      ensures Valid() && old(Printable(Abstract()[x])) && r == Describe(old(Abstract()[x]))
    {
      ghost var env := Abstract();
      assert env[x] == Abstract()[x] && x in env;
      var last := if ys == [] then x else ys[|ys| - 1];
      ChainKeepsValue(env, x, ys);
      Run(cs);
      assert last in Abstract();
      assert last in Pointing();
      r := Print(last);
    }

    /** A success handed on through any chain of copies and assignments prints as "OK". */
    method PrintOkAfterChain(x: nat, ys: seq<nat>, cs: seq<Command>) returns (r: seq<u8>)
      requires Valid() && x !in vars && cs == HandOn(Abstract()[x := Success], x, ys)
      modifies this, heap, vars.Values
      ensures Valid() && r == [0x4f, 0x4b]
    {
      SingleCommand(Abstract(), DeclareOk(x));
      OkText();
      Run([DeclareOk(x)]);
      assert x in Abstract();
      assert x in Pointing();
      r := HandOnAndPrint(x, ys, cs);
    }

    /**
      * An error made from any code and any two messages that fit, handed on through
      * any chain of copies and assignments, prints as the name of its code, followed
      * by ": " and the joined message if that is not empty.
      */
    method PrintAfterChain(x: nat, code: u8, msg1: seq<u8>, msg2: seq<u8>, ys: seq<nat>, cs: seq<Command>)
      returns (r: seq<u8>)
      requires Valid() && x !in vars && 1 <= code <= MAX_CODE && |Message(msg1, msg2)| + 5 < 0x1_0000_0000
      requires cs == HandOn(Abstract()[x := Error(code, Message(msg1, msg2))], x, ys)
      modifies this, heap, vars.Values
      ensures Valid()
      ensures r == Ascii(CODE_STRINGS[code]) + MessagePart(msg1, msg2)
    {
      PackingIsExactIff(msg1, msg2);
      DescribeJoined(code, msg1, msg2);
      SingleCommand(Abstract(), DeclareError(x, code, msg1, msg2));
      Run([DeclareError(x, code, msg1, msg2)]);
      assert x in Abstract();
      assert x in Pointing();
      r := HandOnAndPrint(x, ys, cs);
    }
  }

  /** The text behind the name of the code: nothing, or ": " before each message part there is. */
  function MessagePart(msg1: seq<u8>, msg2: seq<u8>): seq<u8> {
    if msg1 == [] && msg2 == [] then []
    else if msg2 == [] then [0x3a, 0x20] + msg1
    else [0x3a, 0x20] + msg1 + [0x3a, 0x20] + msg2
  }

  lemma DescribeJoined(code: u8, msg1: seq<u8>, msg2: seq<u8>)
    requires 1 <= code <= MAX_CODE
    ensures Describe(Error(code, Message(msg1, msg2))) == Ascii(CODE_STRINGS[code]) + MessagePart(msg1, msg2)
  {
    var message := Message(msg1, msg2);
    if message == [] {
      assert MessagePart(msg1, msg2) == [];
    } else {
      assert SEPARATOR + message == MessagePart(msg1, msg2);
    }
  }
}
