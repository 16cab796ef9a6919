/**
  Class.extend and its method wrapper.

  A class is a chain of layers, the root first, each mapping property names to
  functions or data.  Extend turns the layers into prototypes: a function that
  overrides a function is wrapped, and the wrapper binds the receiver's `_super`
  slot around the body.  Two evaluators give a meaning to method bodies: DynEval
  reads the mutable slot as the program does, StatEval resolves every super call
  from the class text alone.
 */
module SuperDispatch {
  import opened Wrappers

  type Name = string

  /** The property that holds the slot; bodies name it only in super calls. */
  const SUPER_NAME: Name := "_super"

  type Oid = nat

  datatype BinOp = Plus | Then

  /** Method bodies.  `Super` is `this._super(a)`; `Call(None, m, a)` is `this.m(a)`. */
  datatype Expr =
    | Lit(n: int)
    | Arg
    | Get(field: Name)
    | Set(field: Name, value: Expr)
    | Bin(op: BinOp, left: Expr, right: Expr)
    | If(cond: Expr, thn: Expr, els: Expr)
    | Super(arg: Expr)
    | Call(target: Option<Oid>, method_: Name, arg: Expr)
    | Throw(exn: Expr)
    | Try(block: Expr, handler: Expr)

  /** `textual` says that the function's text matches /\b_super\b/ outside of any use. */
  datatype Prop = Func(body: Expr, textual: bool) | Data(n: int)

  type Layer = map<Name, Prop>
  type Class = seq<Layer>

  /** What the `fnTest` regular expression can be, by what the browser's engine supports. */
  datatype FnTest = Decompiles | Always

  datatype Entry = Wrapped(body: Expr) | Plain(body: Expr) | DataEntry(n: int)

  type Proto = map<Name, Entry>
  type Chain = seq<Proto>

  /** A function value found at `level` of its owner's chain. */
  datatype Fun = Fun(level: nat, name: Name)

  datatype Exn = TypeError | User(n: int)
  datatype Outcome = Value(n: int) | Thrown(exn: Exn) | OutOfFuel

  type Heap = map<(Oid, Name), int>
  datatype State = State(heap: Heap, slots: seq<Option<Fun>>)

  predicate UsesSuper(e: Expr) {
    match e
    case Lit(_) => false
    case Arg => false
    case Get(_) => false
    case Set(_, v) => UsesSuper(v)
    case Bin(_, l, r) => UsesSuper(l) || UsesSuper(r)
    case If(c, t, f) => UsesSuper(c) || UsesSuper(t) || UsesSuper(f)
    case Super(_) => true
    case Call(_, _, a) => UsesSuper(a)
    case Throw(x) => UsesSuper(x)
    case Try(b, h) => UsesSuper(b) || UsesSuper(h)
  }

  /** Neither a super call nor a call of a method. */
  predicate CallFree(e: Expr) {
    match e
    case Lit(_) => true
    case Arg => true
    case Get(_) => true
    case Set(_, v) => CallFree(v)
    case Bin(_, l, r) => CallFree(l) && CallFree(r)
    case If(c, t, f) => CallFree(c) && CallFree(t) && CallFree(f)
    case Super(_) => false
    case Call(_, _, _) => false
    case Throw(x) => CallFree(x)
    case Try(b, h) => CallFree(b) && CallFree(h)
  }

  /** No handler can see an exception that came out of a call. */
  predicate TriesCallFree(e: Expr) {
    match e
    case Lit(_) => true
    case Arg => true
    case Get(_) => true
    case Set(_, v) => TriesCallFree(v)
    case Bin(_, l, r) => TriesCallFree(l) && TriesCallFree(r)
    case If(c, t, f) => TriesCallFree(c) && TriesCallFree(t) && TriesCallFree(f)
    case Super(a) => TriesCallFree(a)
    case Call(_, _, a) => TriesCallFree(a)
    case Throw(x) => TriesCallFree(x)
    case Try(b, h) => CallFree(b) && TriesCallFree(b) && TriesCallFree(h)
  }

  /** `_super` is named in no other way than by a super call. */
  predicate HidesSlot(e: Expr) {
    match e
    case Lit(_) => true
    case Arg => true
    case Get(f) => f != SUPER_NAME
    case Set(f, v) => f != SUPER_NAME && HidesSlot(v)
    case Bin(_, l, r) => HidesSlot(l) && HidesSlot(r)
    case If(c, t, f) => HidesSlot(c) && HidesSlot(t) && HidesSlot(f)
    case Super(a) => HidesSlot(a)
    case Call(_, m, a) => m != SUPER_NAME && HidesSlot(a)
    case Throw(x) => HidesSlot(x)
    case Try(b, h) => HidesSlot(b) && HidesSlot(h)
  }

  predicate TestFn(test: FnTest, body: Expr, textual: bool) {
    test == Always || textual || UsesSuper(body)
  }

  /** Itself an access of a property called `_super`. */
  predicate NamesSlot(e: Expr) {
    match e
    case Get(f) => f == "_super"
    case Set(f, _) => f == "_super"
    case Call(_, m, _) => m == "_super"
    case _ => false
  }

  /** A body and everything in it. */
  function Parts(e: Expr): set<Expr> {
    {e} + match e
          case Lit(_) => {}
          case Arg => {}
          case Get(_) => {}
          case Set(_, v) => Parts(v)
          case Bin(_, l, r) => Parts(l) + Parts(r)
          case If(c, t, f) => Parts(c) + Parts(t) + Parts(f)
          case Super(a) => Parts(a)
          case Call(_, _, a) => Parts(a)
          case Throw(x) => Parts(x)
          case Try(b, h) => Parts(b) + Parts(h)
  }

  lemma {:induction false} UsesSuperIff(e: Expr)
    ensures UsesSuper(e) <==> exists a :: Super(a) in Parts(e)
  {
    match e
    case Lit(_) =>
    case Arg =>
    case Get(_) =>
    case Set(_, v) => UsesSuperIff(v);
    case Bin(_, l, r) =>
      UsesSuperIff(l);
      UsesSuperIff(r);
    case If(c, t, f) =>
      UsesSuperIff(c);
      UsesSuperIff(t);
      UsesSuperIff(f);
    case Super(a) => assert Super(a) in Parts(e);
    case Call(_, _, a) => UsesSuperIff(a);
    case Throw(x) => UsesSuperIff(x);
    case Try(b, h) =>
      UsesSuperIff(b);
      UsesSuperIff(h);
  }

  /** A body hides the slot exactly when nothing in it reads, sets or calls a property of that name. */
  lemma {:induction false} HidesSlotIff(e: Expr)
    ensures HidesSlot(e) <==> forall p :: p in Parts(e) ==> !NamesSlot(p)
  {
    assert e in Parts(e);
    match e
    case Lit(_) =>
    case Arg =>
    case Get(_) => assert NamesSlot(e) <==> !HidesSlot(e);
    case Set(_, v) =>
      HidesSlotIff(v);
      assert Parts(e) == {e} + Parts(v);
    case Bin(_, l, r) =>
      HidesSlotIff(l);
      HidesSlotIff(r);
    case If(c, t, f) =>
      HidesSlotIff(c);
      HidesSlotIff(t);
      HidesSlotIff(f);
    case Super(a) => HidesSlotIff(a);
    case Call(_, _, a) =>
      HidesSlotIff(a);
      assert Parts(e) == {e} + Parts(a);
    case Throw(x) => HidesSlotIff(x);
    case Try(b, h) =>
      HidesSlotIff(b);
      HidesSlotIff(h);
  }

  /** An engine that decompiles functions passes exactly those whose text holds `_super`, in a use or
      otherwise; any other passes every function. */
  lemma TestFnIff(test: FnTest, body: Expr, textual: bool)
    ensures TestFn(test, body, textual) <==>
              (test == Decompiles ==> textual || exists a :: Super(a) in Parts(body))
  {
    UsesSuperIff(body);
  }

  /** Property lookup along a prototype chain: the nearest layer that owns the name. */
  function Resolve<T>(chain: seq<map<Name, T>>, name: Name): (r: Option<Fun>)
    ensures r.Some? ==> r.value.name == name && r.value.level < |chain| && name in chain[r.value.level]
  {
    if chain == [] then None
    else if name in chain[|chain| - 1] then Some(Fun(|chain| - 1, name))
    else Resolve(chain[..|chain| - 1], name)
  }

  /** Lookup finds a layer exactly when it owns the name and no layer above it does. */
  lemma {:induction false} ResolveIsNearest<T>(chain: seq<map<Name, T>>, name: Name, k: nat)
    ensures Resolve(chain, name) == Some(Fun(k, name)) <==>
              k < |chain| && name in chain[k] && forall j :: k < j < |chain| ==> name !in chain[j]
  {
    if |chain| > 0 && name !in chain[|chain| - 1] { ResolveIsNearest(chain[..|chain| - 1], name, k); }
  }

  /** It fails exactly when no layer owns the name. */
  lemma {:induction false} ResolveFails<T>(chain: seq<map<Name, T>>, name: Name)
    ensures Resolve(chain, name) == None <==> forall k :: 0 <= k < |chain| ==> name !in chain[k]
  {
    if |chain| > 0 && name !in chain[|chain| - 1] { ResolveFails(chain[..|chain| - 1], name); }
  }

  predicate IsFunction(chain: Chain, name: Name) {
    var f := Resolve(chain, name);
    f.Some? && !chain[f.value.level][name].DataEntry?
  }

  function BuildEntry(parent: Chain, name: Name, prop: Prop, test: FnTest): Entry {
    match prop
    case Data(n) => DataEntry(n)
    case Func(body, textual) =>
      if IsFunction(parent, name) && TestFn(test, body, textual) then Wrapped(body) else Plain(body)
  }

  function BuildProto(parent: Chain, layer: Layer, test: FnTest): Proto {
    map name | name in layer :: BuildEntry(parent, name, layer[name], test)
  }

  /** The prototype chain that successive calls of `extend` produce for a class. */
  function Build(layers: Class, test: FnTest): (chain: Chain)
    ensures |chain| == |layers|
    ensures forall k :: 0 <= k < |layers| ==> chain[k] == BuildProto(chain[..k], layers[k], test)
  {
    if layers == [] then []
    else
      var n := |layers| - 1;
      var parent := Build(layers[..n], test);
      var chain := parent + [BuildProto(parent, layers[n], test)];
      assert forall k :: 0 <= k <= n ==> chain[..k] == parent[..k];
      chain
  }

  function BuildAll(world: seq<Class>, test: FnTest): (chains: seq<Chain>)
    ensures |chains| == |world|
    ensures forall i :: 0 <= i < |world| ==> chains[i] == Build(world[i], test)
  {
    seq(|world|, i requires 0 <= i < |world| => Build(world[i], test))
  }

  // ---------- The two meanings of a method body ----------

  function Apply(op: BinOp, x: int, y: int): int {
    match op
    case Plus => x + y
    case Then => y
  }

  /** `objects[obj].field`: its own field, else the number its prototypes give it. */
  function Read(h: Heap, obj: Oid, chain: Chain, field: Name): int {
    if (obj, field) in h then h[(obj, field)]
    else
      var f := Resolve(chain, field);
      if f.Some? && chain[f.value.level][field].DataEntry? then chain[f.value.level][field].n else 0
  }

  function StatRead(h: Heap, obj: Oid, layers: Class, field: Name): int {
    if (obj, field) in h then h[(obj, field)]
    else
      var f := Resolve(layers, field);
      if f.Some? && layers[f.value.level][field].Data? then layers[f.value.level][field].n else 0
  }

  /** The function that `objects[obj].name` is; a field of the object's own shadows it. */
  function Method<T>(h: Heap, obj: Oid, chain: seq<map<Name, T>>, name: Name): Option<Fun> {
    if (obj, name) in h then None else Resolve(chain, name)
  }

  /** What `this.name` calls: nothing if the object has a field of that name, else the nearest layer's. */
  lemma MethodIsNearest<T>(h: Heap, obj: Oid, chain: seq<map<Name, T>>, name: Name, k: nat)
    ensures Method(h, obj, chain, name) == Some(Fun(k, name)) <==>
              && (obj, name) !in h
              && k < |chain| && name in chain[k] && forall j :: k < j < |chain| ==> name !in chain[j]
  {
    ResolveIsNearest(chain, name, k);
  }

  /** What the program does: super calls go through the receiver's mutable slot.  The function to
      call is looked up before its argument is evaluated. */
  function DynEval(ps: seq<Chain>, fuel: nat, e: Expr, self: Oid, arg: int, st: State): (r: (Outcome, State))
    requires self < |ps| == |st.slots|
    ensures |r.1.slots| == |st.slots|
    decreases fuel, 1, e
  {
    match e
    case Lit(n) => (Value(n), st)
    case Arg => (Value(arg), st)
    case Get(f) => (Value(Read(st.heap, self, ps[self], f)), st)
    case Set(f, v) =>
      var (o, s) := DynEval(ps, fuel, v, self, arg, st);
      if o.Value? then (o, s.(heap := s.heap[(self, f) := o.n])) else (o, s)
    case Bin(op, l, r) =>
      var (o1, s1) := DynEval(ps, fuel, l, self, arg, st);
      if !o1.Value? then (o1, s1) else
      var (o2, s2) := DynEval(ps, fuel, r, self, arg, s1);
      if !o2.Value? then (o2, s2) else (Value(Apply(op, o1.n, o2.n)), s2)
    case If(c, t, f) =>
      var (o, s) := DynEval(ps, fuel, c, self, arg, st);
      if !o.Value? then (o, s)
      else if o.n != 0 then DynEval(ps, fuel, t, self, arg, s)
      else DynEval(ps, fuel, f, self, arg, s)
    case Super(a) =>
      var (o, s) := DynEval(ps, fuel, a, self, arg, st);
      if !o.Value? then (o, s) else DynInvoke(ps, fuel, self, st.slots[self], o.n, s)
    case Call(target, m, a) =>
      var (o, s) := DynEval(ps, fuel, a, self, arg, st);
      if !o.Value? then (o, s) else
      var obj := if target.Some? then target.value else self;
      if obj < |ps| then DynInvoke(ps, fuel, obj, Method(st.heap, obj, ps[obj], m), o.n, s) else (Thrown(TypeError), s)
    case Throw(x) =>
      var (o, s) := DynEval(ps, fuel, x, self, arg, st);
      if o.Value? then (Thrown(User(o.n)), s) else (o, s)
    case Try(b, h) =>
      var (o, s) := DynEval(ps, fuel, b, self, arg, st);
      if o.Thrown? then DynEval(ps, fuel, h, self, arg, s) else (o, s)
  }

  /** Calling a function value on `self`; `None`, data and stale levels are not callable. */
  function DynInvoke(ps: seq<Chain>, fuel: nat, self: Oid, f: Option<Fun>, arg: int, st: State): (r: (Outcome, State))
    requires self < |ps| == |st.slots|
    ensures |r.1.slots| == |st.slots|
    decreases fuel, 0
  {
    if f.None? || f.value.level >= |ps[self]| || f.value.name !in ps[self][f.value.level] then
      (Thrown(TypeError), st)
    else if fuel == 0 then (OutOfFuel, st)
    else
      var Fun(level, name) := f.value;
      match ps[self][level][name]
      case DataEntry(_) => (Thrown(TypeError), st)
      case Plain(body) => DynEval(ps, fuel - 1, body, self, arg, st)
      case Wrapped(body) =>
        var tmp := st.slots[self];
        var bound := st.(slots := st.slots[self := Resolve(ps[self][..level], name)]);
        var (o, s) := DynEval(ps, fuel - 1, body, self, arg, bound);
        if o.Value? then (o, s.(slots := s.slots[self := tmp])) else (o, s)
  }

  /** What super means: the nearest definition below the layer that owns the running body. */
  function StatEval(world: seq<Class>, fuel: nat, e: Expr, self: Oid, here: Fun, arg: int, h: Heap): (Outcome, Heap)
    requires self < |world| && here.level < |world[self]|
    decreases fuel, 1, e
  {
    match e
    case Lit(n) => (Value(n), h)
    case Arg => (Value(arg), h)
    case Get(f) => (Value(StatRead(h, self, world[self], f)), h)
    case Set(f, v) =>
      var (o, s) := StatEval(world, fuel, v, self, here, arg, h);
      if o.Value? then (o, s[(self, f) := o.n]) else (o, s)
    case Bin(op, l, r) =>
      var (o1, s1) := StatEval(world, fuel, l, self, here, arg, h);
      if !o1.Value? then (o1, s1) else
      var (o2, s2) := StatEval(world, fuel, r, self, here, arg, s1);
      if !o2.Value? then (o2, s2) else (Value(Apply(op, o1.n, o2.n)), s2)
    case If(c, t, f) =>
      var (o, s) := StatEval(world, fuel, c, self, here, arg, h);
      if !o.Value? then (o, s)
      else if o.n != 0 then StatEval(world, fuel, t, self, here, arg, s)
      else StatEval(world, fuel, f, self, here, arg, s)
    case Super(a) =>
      var (o, s) := StatEval(world, fuel, a, self, here, arg, h);
      if !o.Value? then (o, s)
      else StatInvoke(world, fuel, self, Resolve(world[self][..here.level], here.name), o.n, s)
    case Call(target, m, a) =>
      var (o, s) := StatEval(world, fuel, a, self, here, arg, h);
      if !o.Value? then (o, s) else
      var obj := if target.Some? then target.value else self;
      if obj < |world| then StatInvoke(world, fuel, obj, Method(h, obj, world[obj], m), o.n, s)
        else (Thrown(TypeError), s)
    case Throw(x) =>
      var (o, s) := StatEval(world, fuel, x, self, here, arg, h);
      if o.Value? then (Thrown(User(o.n)), s) else (o, s)
    case Try(b, hd) =>
      var (o, s) := StatEval(world, fuel, b, self, here, arg, h);
      if o.Thrown? then StatEval(world, fuel, hd, self, here, arg, s) else (o, s)
  }

  function StatInvoke(world: seq<Class>, fuel: nat, self: Oid, f: Option<Fun>, arg: int, h: Heap): (Outcome, Heap)
    requires self < |world|
    decreases fuel, 0
  {
    if f.None? || f.value.level >= |world[self]| || f.value.name !in world[self][f.value.level] then
      (Thrown(TypeError), h)
    else if fuel == 0 then (OutOfFuel, h)
    else
      match world[self][f.value.level][f.value.name]
      case Data(_) => (Thrown(TypeError), h)
      case Func(body, _) => StatEval(world, fuel - 1, body, self, f.value, arg, h)
  }

  // ---------- Prototypes mirror the class text ----------

  lemma {:induction false} ResolveByKeys<T, U>(a: seq<map<Name, T>>, b: seq<map<Name, U>>, name: Name)
    requires |a| == |b| && forall k :: 0 <= k < |a| ==> a[k].Keys == b[k].Keys
    ensures Resolve(a, name) == Resolve(b, name)
  {
    if a != [] {
      var n := |a| - 1;
      assert name in a[n] <==> name in a[n].Keys;
      assert name in b[n] <==> name in b[n].Keys;
      ResolveByKeys(a[..n], b[..n], name);
    }
  }

  /** Does the class text define `name` as a function below the given layers' top? */
  predicate DefinesFunction(layers: Class, name: Name) {
    var f := Resolve(layers, name);
    f.Some? && layers[f.value.level][name].Func?
  }

  lemma BuiltPrefix(layers: Class, k: nat, test: FnTest, name: Name)
    requires k <= |layers|
    ensures Resolve(Build(layers, test)[..k], name) == Resolve(layers[..k], name)
    ensures IsFunction(Build(layers, test)[..k], name) == DefinesFunction(layers[..k], name)
  {
    var chain := Build(layers, test);
    assert forall j :: 0 <= j < k ==> chain[..k][j].Keys == layers[..k][j].Keys;
    ResolveByKeys(chain[..k], layers[..k], name);
    var f := Resolve(layers[..k], name);
    if f.Some? {
      assert chain[f.value.level] == BuildProto(chain[..f.value.level], layers[f.value.level], test);
    }
  }

  /** A wrapper is installed exactly for a function that overrides a function and passes fnTest. */
  lemma WrappedExactly(layers: Class, level: nat, name: Name, test: FnTest)
    requires level < |layers| && name in layers[level]
    ensures name in Build(layers, test)[level]
    ensures var p := layers[level][name];
            Build(layers, test)[level][name] ==
            if p.Data? then DataEntry(p.n)
            else if DefinesFunction(layers[..level], name) && TestFn(test, p.body, p.textual) then Wrapped(p.body)
            else Plain(p.body)
  {
    var chain := Build(layers, test);
    assert chain[level] == BuildProto(chain[..level], layers[level], test);
    BuiltPrefix(layers, level, test, name);
  }

  /** An entry of a prototype chain against the property it was built from. */
  predicate EntryMirrors(chain: Chain, layers: Class, level: nat, name: Name)
    requires level < |chain| == |layers| && name in layers[level]
  {
    name in chain[level] &&
    match chain[level][name]
    case DataEntry(n) => layers[level][name] == Data(n)
    case Wrapped(body) =>
      && layers[level][name].Func? && layers[level][name].body == body && DefinesFunction(layers[..level], name)
      && Resolve(chain[..level], name) == Resolve(layers[..level], name)
    case Plain(body) =>
      && layers[level][name].Func? && layers[level][name].body == body
      && !(DefinesFunction(layers[..level], name) && UsesSuper(body))
  }

  /** All that the two evaluators need to know of prototypes built from class text. */
  ghost predicate Mirrors(ps: seq<Chain>, world: seq<Class>) {
    && |ps| == |world|
    && (forall i :: 0 <= i < |world| ==> |ps[i]| == |world[i]|)
    && (forall i, name :: 0 <= i < |world| ==> Resolve(ps[i], name) == Resolve(world[i], name))
    && (forall i, k, name :: 0 <= i < |world| && 0 <= k < |world[i]| && name in ps[i][k] ==> name in world[i][k])
    && (forall i, k, name :: 0 <= i < |world| && 0 <= k < |world[i]| && name in world[i][k] ==>
          EntryMirrors(ps[i], world[i], k, name))
  }

  lemma BuiltMirrors(world: seq<Class>, test: FnTest)
    ensures Mirrors(BuildAll(world, test), world)
  {
    var ps: seq<Chain> := BuildAll(world, test);
    forall i, name | 0 <= i < |world| ensures Resolve(ps[i], name) == Resolve(world[i], name) {
      BuiltPrefix(world[i], |world[i]|, test, name);
      assert ps[i][..|world[i]|] == ps[i] && world[i][..|world[i]|] == world[i];
    }
    forall i, k, name | 0 <= i < |world| && 0 <= k < |world[i]| && name in ps[i][k] ensures name in world[i][k] {
      assert ps[i][k] == BuildProto(ps[i][..k], world[i][k], test);
    }
    forall i, k, name | 0 <= i < |world| && 0 <= k < |world[i]| && name in world[i][k]
      ensures EntryMirrors(ps[i], world[i], k, name)
    {
      WrappedExactly(world[i], k, name, test);
      BuiltPrefix(world[i], k, test, name);
    }
  }

  // ---------- Main result: the mutable slot means static super ----------

  /** Super is called only where an ancestor defines the name as a function, and the slot is not
      named in any other way. */
  predicate SuperWellPlaced(world: seq<Class>) {
    forall i, k, name :: 0 <= i < |world| && 0 <= k < |world[i]| && name in world[i][k] ==>
      && name != SUPER_NAME
      && (world[i][k][name].Func? ==>
            && (UsesSuper(world[i][k][name].body) ==> DefinesFunction(world[i][..k], name))
            && HidesSlot(world[i][k][name].body))
  }

  /** Is the value a function that a call on the object runs? */
  predicate Callable(world: seq<Class>, obj: Oid, f: Option<Fun>)
    requires obj < |world|
  {
    f.Some? && f.value.level < |world[obj]| && f.value.name in world[obj][f.value.level]
    && world[obj][f.value.level][f.value.name].Func?
  }

  predicate WrappedIn(ps: seq<Chain>, obj: Oid, level: nat, name: Name) {
    obj < |ps| && level < |ps[obj]| && name in ps[obj][level] && ps[obj][level][name].Wrapped?
  }

  /** If the evaluation throws, has the exception left a wrapped method? */
  predicate Unwinds(ps: seq<Chain>, world: seq<Class>, fuel: nat, e: Expr, self: Oid, here: Fun, arg: int, h: Heap)
    requires self < |world| && here.level < |world[self]|
    decreases fuel, 1, e
  {
    match e
    case Lit(_) => false
    case Arg => false
    case Get(_) => false
    case Set(_, v) => Unwinds(ps, world, fuel, v, self, here, arg, h)
    case Bin(_, l, r) =>
      var (o, s) := StatEval(world, fuel, l, self, here, arg, h);
      if o.Value? then Unwinds(ps, world, fuel, r, self, here, arg, s)
      else Unwinds(ps, world, fuel, l, self, here, arg, h)
    case If(c, t, f) =>
      var (o, s) := StatEval(world, fuel, c, self, here, arg, h);
      if !o.Value? then Unwinds(ps, world, fuel, c, self, here, arg, h)
      else if o.n != 0 then Unwinds(ps, world, fuel, t, self, here, arg, s)
      else Unwinds(ps, world, fuel, f, self, here, arg, s)
    case Super(a) =>
      var (o, s) := StatEval(world, fuel, a, self, here, arg, h);
      if o.Value? then UnwindsInvoke(ps, world, fuel, self, Resolve(world[self][..here.level], here.name), o.n, s)
      else Unwinds(ps, world, fuel, a, self, here, arg, h)
    case Call(target, m, a) =>
      var (o, s) := StatEval(world, fuel, a, self, here, arg, h);
      var obj := if target.Some? then target.value else self;
      if o.Value? then obj < |world| && UnwindsInvoke(ps, world, fuel, obj, Method(h, obj, world[obj], m), o.n, s)
      else Unwinds(ps, world, fuel, a, self, here, arg, h)
    case Throw(x) =>
      !StatEval(world, fuel, x, self, here, arg, h).0.Value? && Unwinds(ps, world, fuel, x, self, here, arg, h)
    case Try(b, hd) =>
      var (o, s) := StatEval(world, fuel, b, self, here, arg, h);
      o.Thrown? && Unwinds(ps, world, fuel, hd, self, here, arg, s)
  }

  predicate UnwindsInvoke(ps: seq<Chain>, world: seq<Class>, fuel: nat, self: Oid, f: Option<Fun>, arg: int, h: Heap)
    requires self < |world|
    decreases fuel, 0
  {
    fuel > 0 && Callable(world, self, f) &&
    var Fun(level, name) := f.value;
    || WrappedIn(ps, self, level, name)
    || Unwinds(ps, world, fuel - 1, world[self][level][name].body, self, f.value, arg, h)
  }

  /** The run of a body in which no handler sees an exception that has left a wrapped method. */
  predicate Clean(ps: seq<Chain>, world: seq<Class>, fuel: nat, e: Expr, self: Oid, here: Fun, arg: int, h: Heap)
    requires self < |world| && here.level < |world[self]|
    decreases fuel, 1, e
  {
    match e
    case Lit(_) => true
    case Arg => true
    case Get(_) => true
    case Set(_, v) => Clean(ps, world, fuel, v, self, here, arg, h)
    case Bin(_, l, r) =>
      var (o, s) := StatEval(world, fuel, l, self, here, arg, h);
      Clean(ps, world, fuel, l, self, here, arg, h) && (o.Value? ==> Clean(ps, world, fuel, r, self, here, arg, s))
    case If(c, t, f) =>
      var (o, s) := StatEval(world, fuel, c, self, here, arg, h);
      && Clean(ps, world, fuel, c, self, here, arg, h)
      && (o.Value? && o.n != 0 ==> Clean(ps, world, fuel, t, self, here, arg, s))
      && (o.Value? && o.n == 0 ==> Clean(ps, world, fuel, f, self, here, arg, s))
    case Super(a) =>
      var (o, s) := StatEval(world, fuel, a, self, here, arg, h);
      && Clean(ps, world, fuel, a, self, here, arg, h)
      && (o.Value? ==> CleanInvoke(ps, world, fuel, self, Resolve(world[self][..here.level], here.name), o.n, s))
    case Call(target, m, a) =>
      var (o, s) := StatEval(world, fuel, a, self, here, arg, h);
      var obj := if target.Some? then target.value else self;
      && Clean(ps, world, fuel, a, self, here, arg, h)
      && (o.Value? && obj < |world| ==> CleanInvoke(ps, world, fuel, obj, Method(h, obj, world[obj], m), o.n, s))
    case Throw(x) => Clean(ps, world, fuel, x, self, here, arg, h)
    case Try(b, hd) =>
      var (o, s) := StatEval(world, fuel, b, self, here, arg, h);
      && Clean(ps, world, fuel, b, self, here, arg, h)
      && (o.Thrown? ==>
            !Unwinds(ps, world, fuel, b, self, here, arg, h) && Clean(ps, world, fuel, hd, self, here, arg, s))
  }

  predicate CleanInvoke(ps: seq<Chain>, world: seq<Class>, fuel: nat, self: Oid, f: Option<Fun>, arg: int, h: Heap)
    requires self < |world|
    decreases fuel, 0
  {
    fuel > 0 && Callable(world, self, f) ==>
      Clean(ps, world, fuel - 1, world[self][f.value.level][f.value.name].body, self, f.value, arg, h)
  }

  /** The same outcome and fields; and the slots as before, unless an exception has left a
      wrapped method. */
  ghost predicate Agrees(d: (Outcome, State), s: (Outcome, Heap), before: State, unwinds: bool) {
    d.0 == s.0 && d.1.heap == s.1 && (d.0.Value? || (d.0.Thrown? && !unwinds) ==> d.1.slots == before.slots)
  }

  lemma ReadAgrees(ps: seq<Chain>, world: seq<Class>, h: Heap, obj: Oid, field: Name)
    requires Mirrors(ps, world) && obj < |world|
    ensures Read(h, obj, ps[obj], field) == StatRead(h, obj, world[obj], field)
  {
    var f := Resolve(world[obj], field);
    assert Resolve(ps[obj], field) == f;
    if f.Some? { assert EntryMirrors(ps[obj], world[obj], f.value.level, field); }
  }

  /** A clean run of a body with the mutable slot has the outcome and the fields of static super,
      and puts every slot back if it returns or throws an exception of its own. */
  lemma {:induction false} EvalAgrees(ps: seq<Chain>, world: seq<Class>, fuel: nat, e: Expr, self: Oid, here: Fun,
          arg: int, st: State)
    requires Mirrors(ps, world) && SuperWellPlaced(world)
    requires self < |world| == |st.slots| && here.level < |world[self]|
    requires UsesSuper(e) ==> st.slots[self] == Resolve(world[self][..here.level], here.name)
    requires Clean(ps, world, fuel, e, self, here, arg, st.heap)
    ensures Agrees(DynEval(ps, fuel, e, self, arg, st), StatEval(world, fuel, e, self, here, arg, st.heap), st,
                   Unwinds(ps, world, fuel, e, self, here, arg, st.heap))
    decreases fuel, 1, e
  {
    match e
    case Lit(_) =>
    case Arg =>
    case Get(f) => ReadAgrees(ps, world, st.heap, self, f);
    case Set(_, v) => EvalAgrees(ps, world, fuel, v, self, here, arg, st);
    case Bin(_, l, r) =>
      EvalAgrees(ps, world, fuel, l, self, here, arg, st);
      var (o, s) := DynEval(ps, fuel, l, self, arg, st);
      if o.Value? { EvalAgrees(ps, world, fuel, r, self, here, arg, s); }
    case If(c, t, f) =>
      EvalAgrees(ps, world, fuel, c, self, here, arg, st);
      var (o, s) := DynEval(ps, fuel, c, self, arg, st);
      if o.Value? { EvalAgrees(ps, world, fuel, if o.n != 0 then t else f, self, here, arg, s); }
    case Super(a) =>
      EvalAgrees(ps, world, fuel, a, self, here, arg, st);
      var (o, s) := DynEval(ps, fuel, a, self, arg, st);
      if o.Value? { InvokeAgrees(ps, world, fuel, self, st.slots[self], o.n, s); }
    case Call(target, m, a) =>
      EvalAgrees(ps, world, fuel, a, self, here, arg, st);
      var (o, s) := DynEval(ps, fuel, a, self, arg, st);
      var obj := if target.Some? then target.value else self;
      if o.Value? && obj < |world| { InvokeAgrees(ps, world, fuel, obj, Method(st.heap, obj, world[obj], m), o.n, s); }
    case Throw(x) => EvalAgrees(ps, world, fuel, x, self, here, arg, st);
    case Try(b, h) =>
      EvalAgrees(ps, world, fuel, b, self, here, arg, st);
      var (o, s) := DynEval(ps, fuel, b, self, arg, st);
      if o.Thrown? { EvalAgrees(ps, world, fuel, h, self, here, arg, s); }
  }

  lemma {:induction false} InvokeAgrees(ps: seq<Chain>, world: seq<Class>, fuel: nat, self: Oid, f: Option<Fun>,
          arg: int, st: State)
    requires Mirrors(ps, world) && SuperWellPlaced(world)
    requires self < |world| == |st.slots|
    requires CleanInvoke(ps, world, fuel, self, f, arg, st.heap)
    ensures Agrees(DynInvoke(ps, fuel, self, f, arg, st), StatInvoke(world, fuel, self, f, arg, st.heap), st,
                   UnwindsInvoke(ps, world, fuel, self, f, arg, st.heap))
    decreases fuel, 0
  {
    if f.Some? && f.value.level < |world[self]| && f.value.name in world[self][f.value.level] {
      var Fun(level, name) := f.value;
      assert EntryMirrors(ps[self], world[self], level, name);
      if fuel > 0 && world[self][level][name].Func? {
        var body := world[self][level][name].body;
        var inner := if ps[self][level][name].Plain? then st
                     else st.(slots := st.slots[self := Resolve(ps[self][..level], name)]);
        EvalAgrees(ps, world, fuel - 1, body, self, f.value, arg, inner);
        var o := DynEval(ps, fuel - 1, body, self, arg, inner);
        assert o.0.Value? ==> o.1.slots[self := st.slots[self]] == st.slots;
      }
    }
  }

  // ---------- Classes all of whose runs are clean ----------

  /** The discipline the wrapper relies on: super well placed, and no call in a try block. */
  predicate Disciplined(world: seq<Class>) {
    && SuperWellPlaced(world)
    && forall i, k, name :: 0 <= i < |world| && 0 <= k < |world[i]| && name in world[i][k] ==>
         world[i][k][name].Func? ==> TriesCallFree(world[i][k][name].body)
  }

  lemma {:induction false} CallFreeUnwindsNothing(ps: seq<Chain>, world: seq<Class>, fuel: nat, e: Expr, self: Oid,
          here: Fun, arg: int, h: Heap)
    requires self < |world| && here.level < |world[self]| && CallFree(e)
    ensures !Unwinds(ps, world, fuel, e, self, here, arg, h)
    decreases e
  {
    match e
    case Lit(_) =>
    case Arg =>
    case Get(_) =>
    case Set(_, v) => CallFreeUnwindsNothing(ps, world, fuel, v, self, here, arg, h);
    case Bin(_, l, r) =>
      CallFreeUnwindsNothing(ps, world, fuel, l, self, here, arg, h);
      CallFreeUnwindsNothing(ps, world, fuel, r, self, here, arg, StatEval(world, fuel, l, self, here, arg, h).1);
    case If(c, t, f) =>
      CallFreeUnwindsNothing(ps, world, fuel, c, self, here, arg, h);
      CallFreeUnwindsNothing(ps, world, fuel, t, self, here, arg, StatEval(world, fuel, c, self, here, arg, h).1);
      CallFreeUnwindsNothing(ps, world, fuel, f, self, here, arg, StatEval(world, fuel, c, self, here, arg, h).1);
    case Throw(x) => CallFreeUnwindsNothing(ps, world, fuel, x, self, here, arg, h);
    case Try(b, hd) => CallFreeUnwindsNothing(ps, world, fuel, hd, self, here, arg,
      StatEval(world, fuel, b, self, here, arg, h).1);
  }

  lemma {:induction false} DisciplinedIsClean(ps: seq<Chain>, world: seq<Class>, fuel: nat, e: Expr, self: Oid,
          here: Fun, arg: int, h: Heap)
    requires Disciplined(world) && TriesCallFree(e) && self < |world| && here.level < |world[self]|
    ensures Clean(ps, world, fuel, e, self, here, arg, h)
    decreases fuel, 1, e
  {
    match e
    case Lit(_) =>
    case Arg =>
    case Get(_) =>
    case Set(_, v) => DisciplinedIsClean(ps, world, fuel, v, self, here, arg, h);
    case Bin(_, l, r) =>
      DisciplinedIsClean(ps, world, fuel, l, self, here, arg, h);
      DisciplinedIsClean(ps, world, fuel, r, self, here, arg, StatEval(world, fuel, l, self, here, arg, h).1);
    case If(c, t, f) =>
      DisciplinedIsClean(ps, world, fuel, c, self, here, arg, h);
      DisciplinedIsClean(ps, world, fuel, t, self, here, arg, StatEval(world, fuel, c, self, here, arg, h).1);
      DisciplinedIsClean(ps, world, fuel, f, self, here, arg, StatEval(world, fuel, c, self, here, arg, h).1);
    case Super(a) =>
      DisciplinedIsClean(ps, world, fuel, a, self, here, arg, h);
      var (o, s) := StatEval(world, fuel, a, self, here, arg, h);
      if o.Value? {
        DisciplinedCallIsClean(ps, world, fuel, self, Resolve(world[self][..here.level], here.name), o.n, s);
      }
    case Call(target, m, a) =>
      DisciplinedIsClean(ps, world, fuel, a, self, here, arg, h);
      var (o, s) := StatEval(world, fuel, a, self, here, arg, h);
      var obj := if target.Some? then target.value else self;
      if o.Value? && obj < |world| {
        DisciplinedCallIsClean(ps, world, fuel, obj, Method(h, obj, world[obj], m), o.n, s);
      }
    case Throw(x) => DisciplinedIsClean(ps, world, fuel, x, self, here, arg, h);
    case Try(b, hd) =>
      CallFreeUnwindsNothing(ps, world, fuel, b, self, here, arg, h);
      DisciplinedIsClean(ps, world, fuel, b, self, here, arg, h);
      DisciplinedIsClean(ps, world, fuel, hd, self, here, arg, StatEval(world, fuel, b, self, here, arg, h).1);
  }

  lemma {:induction false} DisciplinedCallIsClean(ps: seq<Chain>, world: seq<Class>, fuel: nat, self: Oid,
          f: Option<Fun>, arg: int, h: Heap)
    requires Disciplined(world) && self < |world|
    ensures CleanInvoke(ps, world, fuel, self, f, arg, h)
    decreases fuel, 0
  {
    if fuel > 0 && Callable(world, self, f) {
      DisciplinedIsClean(ps, world, fuel - 1, world[self][f.value.level][f.value.name].body, self, f.value, arg, h);
    }
  }

  // ---------- Fuel plays no part in a finished run ----------

  lemma {:induction false} MoreFuelEval(world: seq<Class>, k: nat, n: nat, e: Expr, self: Oid, here: Fun, arg: int,
          h: Heap)
    requires k <= n && self < |world| && here.level < |world[self]|
    requires !StatEval(world, k, e, self, here, arg, h).0.OutOfFuel?
    ensures StatEval(world, n, e, self, here, arg, h) == StatEval(world, k, e, self, here, arg, h)
    decreases k, 1, e
  {
    match e
    case Lit(_) =>
    case Arg =>
    case Get(_) =>
    case Set(_, v) => MoreFuelEval(world, k, n, v, self, here, arg, h);
    case Bin(_, l, r) =>
      MoreFuelEval(world, k, n, l, self, here, arg, h);
      var (o, s) := StatEval(world, k, l, self, here, arg, h);
      if o.Value? { MoreFuelEval(world, k, n, r, self, here, arg, s); }
    case If(c, t, f) =>
      MoreFuelEval(world, k, n, c, self, here, arg, h);
      var (o, s) := StatEval(world, k, c, self, here, arg, h);
      if o.Value? { MoreFuelEval(world, k, n, if o.n != 0 then t else f, self, here, arg, s); }
    case Super(a) =>
      MoreFuelEval(world, k, n, a, self, here, arg, h);
      var (o, s) := StatEval(world, k, a, self, here, arg, h);
      if o.Value? { MoreFuelInvoke(world, k, n, self, Resolve(world[self][..here.level], here.name), o.n, s); }
    case Call(target, m, a) =>
      MoreFuelEval(world, k, n, a, self, here, arg, h);
      var (o, s) := StatEval(world, k, a, self, here, arg, h);
      var obj := if target.Some? then target.value else self;
      if o.Value? && obj < |world| { MoreFuelInvoke(world, k, n, obj, Method(h, obj, world[obj], m), o.n, s); }
    case Throw(x) => MoreFuelEval(world, k, n, x, self, here, arg, h);
    case Try(b, hd) =>
      MoreFuelEval(world, k, n, b, self, here, arg, h);
      var (o, s) := StatEval(world, k, b, self, here, arg, h);
      if o.Thrown? { MoreFuelEval(world, k, n, hd, self, here, arg, s); }
  }

  lemma {:induction false} MoreFuelInvoke(world: seq<Class>, k: nat, n: nat, self: Oid, f: Option<Fun>, arg: int,
          h: Heap)
    requires k <= n && self < |world|
    requires !StatInvoke(world, k, self, f, arg, h).0.OutOfFuel?
    ensures StatInvoke(world, n, self, f, arg, h) == StatInvoke(world, k, self, f, arg, h)
    decreases k, 0
  {
    if k > 0 && f.Some? && f.value.level < |world[self]| && f.value.name in world[self][f.value.level]
       && world[self][f.value.level][f.value.name].Func? {
      MoreFuelEval(world, k - 1, n - 1, world[self][f.value.level][f.value.name].body, self, f.value, arg, h);
    }
  }

  /** `objects[obj].name(arg)` as the program runs it. */
  function DynCall(world: seq<Class>, test: FnTest, fuel: nat, obj: Oid, name: Name, arg: int, st: State)
    : (Outcome, State)
    requires obj < |world| == |st.slots|
  {
    var ps := BuildAll(world, test);
    DynInvoke(ps, fuel, obj, Method(st.heap, obj, ps[obj], name), arg, st)
  }

  /** `objects[obj].name(arg)` when super is resolved statically. */
  function StatCall(world: seq<Class>, fuel: nat, obj: Oid, name: Name, arg: int, h: Heap): (Outcome, Heap)
    requires obj < |world|
  {
    StatInvoke(world, fuel, obj, Method(h, obj, world[obj], name), arg, h)
  }

  predicate CleanCall(world: seq<Class>, test: FnTest, fuel: nat, obj: Oid, name: Name, arg: int, h: Heap)
    requires obj < |world|
  {
    CleanInvoke(BuildAll(world, test), world, fuel, obj, Method(h, obj, world[obj], name), arg, h)
  }

  /** For any class texts with super well placed: a call whose run is clean has the same outcome and
      the same fields either way, and puts every slot back unless an exception left a wrapped
      method. */
  lemma CleanCallIsStatic(world: seq<Class>, test: FnTest, fuel: nat, obj: Oid, name: Name, arg: int, st: State)
    requires SuperWellPlaced(world) && obj < |world| == |st.slots| && name != SUPER_NAME
    requires CleanCall(world, test, fuel, obj, name, arg, st.heap)
    ensures Agrees(DynCall(world, test, fuel, obj, name, arg, st), StatCall(world, fuel, obj, name, arg, st.heap), st,
                   UnwindsInvoke(BuildAll(world, test), world, fuel, obj, Method(st.heap, obj, world[obj], name),
                     arg, st.heap))
  {
    var ps: seq<Chain> := BuildAll(world, test);
    BuiltMirrors(world, test);
    InvokeAgrees(ps, world, fuel, obj, Method(st.heap, obj, world[obj], name), arg, st);
  }

  ghost predicate DynFinishes(world: seq<Class>, test: FnTest, obj: Oid, name: Name, arg: int, st: State, o: Outcome,
          h: Heap)
    requires obj < |world| == |st.slots|
  {
    !o.OutOfFuel? && exists fuel: nat ::
      var r := DynCall(world, test, fuel, obj, name, arg, st);
      r.0 == o && r.1.heap == h
  }

  ghost predicate StatFinishes(world: seq<Class>, obj: Oid, name: Name, arg: int, h0: Heap, o: Outcome, h: Heap)
    requires obj < |world|
  {
    !o.OutOfFuel? && exists fuel: nat :: StatCall(world, fuel, obj, name, arg, h0) == (o, h)
  }

  /** At any bound on nesting, the call's run is clean. */
  ghost predicate RunsClean(world: seq<Class>, test: FnTest, obj: Oid, name: Name, arg: int, h: Heap)
    requires obj < |world|
  {
    forall fuel: nat :: CleanCall(world, test, fuel, obj, name, arg, h)
  }

  /** Static dispatch has at most one result. */
  lemma StaticIsUnique(world: seq<Class>, obj: Oid, name: Name, arg: int, h0: Heap, o: Outcome, h: Heap, o': Outcome,
          h': Heap)
    requires obj < |world|
    requires StatFinishes(world, obj, name, arg, h0, o, h) && StatFinishes(world, obj, name, arg, h0, o', h')
    ensures o == o' && h == h'
  {
    var f := Method(h0, obj, world[obj], name);
    var a: nat :| StatCall(world, a, obj, name, arg, h0) == (o, h);
    var b: nat :| StatCall(world, b, obj, name, arg, h0) == (o', h');
    if a <= b { MoreFuelInvoke(world, a, b, obj, f, arg, h0); } else { MoreFuelInvoke(world, b, a, obj, f, arg, h0); }
  }

  /** The wrapper is faithful to clean calls: whatever the engine makes of fnTest, whatever the slots
      hold beforehand, a call finishes with a result exactly when static dispatch does, with the
      same result and the same fields. */
  lemma SuperDispatchIsStatic(world: seq<Class>, test: FnTest, obj: Oid, name: Name, arg: int, st: State, o: Outcome,
          h: Heap)
    requires SuperWellPlaced(world) && obj < |world| == |st.slots| && name != SUPER_NAME
    requires RunsClean(world, test, obj, name, arg, st.heap)
    ensures DynFinishes(world, test, obj, name, arg, st, o, h) <==> StatFinishes(world, obj, name, arg, st.heap, o, h)
  {
    forall fuel: nat
      ensures Agrees(DynCall(world, test, fuel, obj, name, arg, st), StatCall(world, fuel, obj, name, arg, st.heap), st,
                     UnwindsInvoke(BuildAll(world, test), world, fuel, obj, Method(st.heap, obj, world[obj], name),
                       arg, st.heap))
    {
      assert CleanCall(world, test, fuel, obj, name, arg, st.heap);
      CleanCallIsStatic(world, test, fuel, obj, name, arg, st);
    }
  }

  /** Class texts with super well placed and no calls in try blocks need no look at the run. */
  lemma DisciplinedIsStatic(world: seq<Class>, test: FnTest, obj: Oid, name: Name, arg: int, st: State, o: Outcome,
          h: Heap)
    requires Disciplined(world) && obj < |world| == |st.slots| && name != SUPER_NAME
    ensures DynFinishes(world, test, obj, name, arg, st, o, h) <==> StatFinishes(world, obj, name, arg, st.heap, o, h)
  {
    forall fuel: nat ensures CleanCall(world, test, fuel, obj, name, arg, st.heap) {
      DisciplinedCallIsClean(BuildAll(world, test), world, fuel, obj, Method(st.heap, obj, world[obj], name), arg,
        st.heap);
    }
    SuperDispatchIsStatic(world, test, obj, name, arg, st, o, h);
  }

  // ---------- When is the slot put back? ----------

  /** Once some super is bound to an object, every evaluation leaves some super bound to it. */
  lemma {:induction false} BoundStaysBound(ps: seq<Chain>, world: seq<Class>, fuel: nat, e: Expr, self: Oid,
          arg: int, st: State, obj: Oid)
    requires Mirrors(ps, world) && self < |ps| == |st.slots| && obj < |ps| && st.slots[obj].Some?
    ensures DynEval(ps, fuel, e, self, arg, st).1.slots[obj].Some?
    decreases fuel, 1, e
  {
    match e
    case Lit(_) =>
    case Arg =>
    case Get(_) =>
    case Set(_, v) => BoundStaysBound(ps, world, fuel, v, self, arg, st, obj);
    case Bin(_, l, r) =>
      BoundStaysBound(ps, world, fuel, l, self, arg, st, obj);
      BoundStaysBound(ps, world, fuel, r, self, arg, DynEval(ps, fuel, l, self, arg, st).1, obj);
    case If(c, t, f) =>
      BoundStaysBound(ps, world, fuel, c, self, arg, st, obj);
      BoundStaysBound(ps, world, fuel, t, self, arg, DynEval(ps, fuel, c, self, arg, st).1, obj);
      BoundStaysBound(ps, world, fuel, f, self, arg, DynEval(ps, fuel, c, self, arg, st).1, obj);
    case Super(a) =>
      BoundStaysBound(ps, world, fuel, a, self, arg, st, obj);
      var (o, s) := DynEval(ps, fuel, a, self, arg, st);
      if o.Value? { BoundStaysBoundByCall(ps, world, fuel, self, st.slots[self], o.n, s, obj); }
    case Call(target, m, a) =>
      BoundStaysBound(ps, world, fuel, a, self, arg, st, obj);
      var (o, s) := DynEval(ps, fuel, a, self, arg, st);
      var callee := if target.Some? then target.value else self;
      if o.Value? && callee < |ps| {
        BoundStaysBoundByCall(ps, world, fuel, callee, Method(st.heap, callee, ps[callee], m), o.n, s, obj);
      }
    case Throw(x) => BoundStaysBound(ps, world, fuel, x, self, arg, st, obj);
    case Try(b, h) =>
      BoundStaysBound(ps, world, fuel, b, self, arg, st, obj);
      BoundStaysBound(ps, world, fuel, h, self, arg, DynEval(ps, fuel, b, self, arg, st).1, obj);
  }

  lemma {:induction false} BoundStaysBoundByCall(ps: seq<Chain>, world: seq<Class>, fuel: nat, self: Oid,
          f: Option<Fun>, arg: int, st: State, obj: Oid)
    requires Mirrors(ps, world) && self < |ps| == |st.slots| && obj < |ps| && st.slots[obj].Some?
    ensures DynInvoke(ps, fuel, self, f, arg, st).1.slots[obj].Some?
    decreases fuel, 0
  {
    if fuel > 0 && f.Some? && f.value.level < |ps[self]| && f.value.name in ps[self][f.value.level] {
      var Fun(level, name) := f.value;
      assert EntryMirrors(ps[self], world[self], level, name);
      var entry := ps[self][level][name];
      if entry.Plain? {
        BoundStaysBound(ps, world, fuel - 1, entry.body, self, arg, st, obj);
      } else if entry.Wrapped? {
        var bound := st.(slots := st.slots[self := Resolve(ps[self][..level], name)]);
        BoundStaysBound(ps, world, fuel - 1, entry.body, self, arg, bound, obj);
      }
    }
  }

  lemma ThrowLeavesBound(ps: seq<Chain>, world: seq<Class>, fuel: nat, obj: Oid, f: Fun, arg: int, st: State)
    requires Mirrors(ps, world) && obj < |ps| == |st.slots|
    requires f.level < |ps[obj]| && f.name in ps[obj][f.level] && ps[obj][f.level][f.name].Wrapped?
    ensures var (o, s) := DynInvoke(ps, fuel, obj, Some(f), arg, st);
            o.Thrown? ==> s.slots[obj].Some?
  {
    assert EntryMirrors(ps[obj], world[obj], f.level, f.name);
    if fuel > 0 {
      var bound := st.(slots := st.slots[obj := Resolve(ps[obj][..f.level], f.name)]);
      BoundStaysBound(ps, world, fuel - 1, ps[obj][f.level][f.name].body, obj, arg, bound, obj);
    }
  }

  /** Called on an object whose `_super` is unset, an overriding method whose run is clean leaves every
      slot as it found it if and only if it returns normally: the wrapper has no `finally`. */
  lemma SlotsRestoredIffReturns(world: seq<Class>, test: FnTest, fuel: nat, obj: Oid, f: Fun, arg: int, st: State)
    requires SuperWellPlaced(world) && obj < |world| == |st.slots| && st.slots[obj] == None
    requires CleanInvoke(BuildAll(world, test), world, fuel, obj, Some(f), arg, st.heap)
    requires f.level < |world[obj]| && f.name in world[obj][f.level]
    requires BuildAll(world, test)[obj][f.level][f.name].Wrapped?
    requires !DynInvoke(BuildAll(world, test), fuel, obj, Some(f), arg, st).0.OutOfFuel?
    ensures var (o, s) := DynInvoke(BuildAll(world, test), fuel, obj, Some(f), arg, st);
            s.slots == st.slots <==> o.Value?
  {
    var ps: seq<Chain> := BuildAll(world, test);
    BuiltMirrors(world, test);
    InvokeAgrees(ps, world, fuel, obj, Some(f), arg, st);
    ThrowLeavesBound(ps, world, fuel, obj, f, arg, st);
  }

  // ---------- Outside the discipline, over any parent class ----------

  /** A class seen at its top layer: what a name there resolves to, and what lies below. */
  lemma TopLayer(layers: Class, props: Layer, name: Name, test: FnTest)
    requires name in props && props[name].Func?
    ensures var chain, n := Build(layers + [props], test), |layers|;
            && |chain| == n + 1 && name in chain[n] && Resolve(chain, name) == Some(Fun(n, name))
            && Resolve(chain[..n], name) == Resolve(layers, name)
            && chain[n][name] ==
               if DefinesFunction(layers, name) && TestFn(test, props[name].body, props[name].textual)
               then Wrapped(props[name].body) else Plain(props[name].body)
    ensures var c := layers + [props];
            Resolve(c, name) == Some(Fun(|layers|, name)) && c[..|layers|] == layers && c[|layers|] == props
  {
    var c := layers + [props];
    assert c[..|layers|] == layers;
    WrappedExactly(c, |layers|, name, test);
    BuiltPrefix(c, |layers|, test, name);
  }

  function CatchingBody(n: Name): (e: Expr)
    ensures UsesSuper(e)
  {
    Bin(Then, Try(Call(None, n, Arg), Lit(0)), Super(Arg))
  }

  /** `m` catches an exception out of `n` and then calls super. */
  function CatchingLayer(m: Name, n: Name): Layer {
    map[m := Func(CatchingBody(n), false), n := Func(Throw(Arg), true)]
  }

  /** An outcome with the caller's slot put back if it is a return. */
  function PutBack(r: (Outcome, State), obj: Oid, tmp: Option<Fun>): (Outcome, State)
    requires obj < |r.1.slots|
  {
    if r.0.Value? then (r.0, r.1.(slots := r.1.slots[obj := tmp])) else r
  }

  /** `name` at the given level is a wrapped body over the given super. */
  ghost predicate WrappedAt(chain: Chain, level: nat, name: Name, body: Expr, below: Option<Fun>) {
    && level < |chain| && name in chain[level] && chain[level][name] == Wrapped(body)
    && Resolve(chain, name) == Some(Fun(level, name)) && Resolve(chain[..level], name) == below
  }

  /** A wrapper binds the super below it, runs the body, and puts the slot back. */
  lemma WrapperRuns(ps: seq<Chain>, fuel: nat, obj: Oid, level: nat, name: Name, body: Expr, below: Option<Fun>,
          arg: int, st: State)
    requires obj < |ps| == |st.slots| && fuel >= 1 && WrappedAt(ps[obj], level, name, body, below)
    ensures DynInvoke(ps, fuel, obj, Some(Fun(level, name)), arg, st)
         == PutBack(DynEval(ps, fuel - 1, body, obj, arg, st.(slots := st.slots[obj := below])), obj, st.slots[obj])
  {
  }

  lemma ThrowerUnwinds(ps: seq<Chain>, fuel: nat, obj: Oid, level: nat, n: Name, below: Option<Fun>, arg: int,
          st: State)
    requires obj < |ps| == |st.slots| && fuel >= 1 && WrappedAt(ps[obj], level, n, Throw(Arg), below)
             && (obj, n) !in st.heap
    ensures DynEval(ps, fuel, Try(Call(None, n, Arg), Lit(0)), obj, arg, st)
            == (Value(0), st.(slots := st.slots[obj := below]))
  {
    var inN := st.(slots := st.slots[obj := below]);
    assert DynEval(ps, fuel - 1, Throw(Arg), obj, arg, inN) == (Thrown(User(arg)), inN);
    assert DynInvoke(ps, fuel, obj, Some(Fun(level, n)), arg, st) == (Thrown(User(arg)), inN);
    assert DynEval(ps, fuel, Call(None, n, Arg), obj, arg, st) == (Thrown(User(arg)), inN);
  }

  lemma CatcherRuns(ps: seq<Chain>, fuel: nat, obj: Oid, level: nat, n: Name, below: Option<Fun>, arg: int, st: State)
    requires obj < |ps| == |st.slots| && fuel >= 1 && WrappedAt(ps[obj], level, n, Throw(Arg), below)
             && (obj, n) !in st.heap
    ensures var inN := st.(slots := st.slots[obj := below]);
            DynEval(ps, fuel, CatchingBody(n), obj, arg, st)
            == DynInvoke(ps, fuel, obj, below, arg, inN)
  {
    ThrowerUnwinds(ps, fuel, obj, level, n, below, arg, st);
    var inN := st.(slots := st.slots[obj := below]);
    assert DynEval(ps, fuel, Super(Arg), obj, arg, inN) == DynInvoke(ps, fuel, obj, below, arg, inN);
  }

  lemma Overrides(world: seq<Class>, test: FnTest, obj: Oid, parent: Class, props: Layer, name: Name, body: Expr,
          textual: bool)
    requires obj < |world| && world[obj] == parent + [props]
    requires name in props && props[name] == Func(body, textual) && DefinesFunction(parent, name)
    requires textual || UsesSuper(body)
    ensures WrappedAt(BuildAll(world, test)[obj], |parent|, name, body, Resolve(parent, name))
  {
    TopLayer(parent, props, name, test);
  }

  lemma CatchingBuilt(world: seq<Class>, test: FnTest, obj: Oid, parent: Class, m: Name, n: Name)
    requires obj < |world| && world[obj] == parent + [CatchingLayer(m, n)]
    requires m != n && DefinesFunction(parent, m) && DefinesFunction(parent, n)
    ensures var chain := BuildAll(world, test)[obj];
            && WrappedAt(chain, |parent|, m, CatchingBody(n), Resolve(parent, m))
            && WrappedAt(chain, |parent|, n, Throw(Arg), Resolve(parent, n))
  {
    var layer := CatchingLayer(m, n);
    Overrides(world, test, obj, parent, layer, m, CatchingBody(n), false);
    Overrides(world, test, obj, parent, layer, n, Throw(Arg), true);
  }

  lemma CatcherCalled(ps: seq<Chain>, fuel: nat, obj: Oid, level: nat, m: Name, n: Name, belowM: Option<Fun>,
          belowN: Option<Fun>, arg: int, st: State)
    requires obj < |ps| == |st.slots| && fuel >= 2 && (obj, n) !in st.heap
    requires WrappedAt(ps[obj], level, m, CatchingBody(n), belowM) && WrappedAt(ps[obj], level, n, Throw(Arg), belowN)
    ensures DynInvoke(ps, fuel, obj, Some(Fun(level, m)), arg, st) ==
            PutBack(DynInvoke(ps, fuel - 1, obj, belowN, arg, st.(slots := st.slots[obj := belowN])), obj,
              st.slots[obj])
  {
    var inM := st.(slots := st.slots[obj := belowM]);
    WrapperRuns(ps, fuel, obj, level, m, CatchingBody(n), belowM, arg, st);
    CatcherRuns(ps, fuel - 1, obj, level, n, belowN, arg, inM);
    assert inM.slots[obj := belowN] == st.slots[obj := belowN];
  }

  /** Under the mutable slot, `m` of a catching class over any parent runs the parent's `n`. */
  lemma CatchReachesN(world: seq<Class>, test: FnTest, fuel: nat, obj: Oid, parent: Class, m: Name, n: Name,
          arg: int, st: State)
    requires obj < |world| == |st.slots| && world[obj] == parent + [CatchingLayer(m, n)] && fuel >= 2
    requires m != n && DefinesFunction(parent, m) && DefinesFunction(parent, n)
    requires (obj, m) !in st.heap && (obj, n) !in st.heap
    ensures DynCall(world, test, fuel, obj, m, arg, st) ==
            var inN := st.(slots := st.slots[obj := Resolve(parent, n)]);
            PutBack(DynInvoke(BuildAll(world, test), fuel - 1, obj, Resolve(parent, n), arg, inN), obj, st.slots[obj])
  {
    CatchingBuilt(world, test, obj, parent, m, n);
    CatcherCalled(BuildAll(world, test), fuel, obj, |parent|, m, n, Resolve(parent, m), Resolve(parent, n), arg, st);
  }

  lemma ThrowerThrows(world: seq<Class>, fuel: nat, obj: Oid, here: Fun, level: nat, n: Name, arg: int, h: Heap)
    requires obj < |world| && here.level < |world[obj]| && fuel >= 1 && (obj, n) !in h
    requires level < |world[obj]| && n in world[obj][level] && world[obj][level][n] == Func(Throw(Arg), true)
    requires Resolve(world[obj], n) == Some(Fun(level, n))
    ensures StatEval(world, fuel, Try(Call(None, n, Arg), Lit(0)), obj, here, arg, h) == (Value(0), h)
  {
    assert StatEval(world, fuel - 1, Throw(Arg), obj, Fun(level, n), arg, h) == (Thrown(User(arg)), h);
    assert StatInvoke(world, fuel, obj, Some(Fun(level, n)), arg, h) == (Thrown(User(arg)), h);
    assert StatEval(world, fuel, Call(None, n, Arg), obj, here, arg, h) == (Thrown(User(arg)), h);
  }

  lemma CatcherMeans(world: seq<Class>, fuel: nat, obj: Oid, here: Fun, level: nat, n: Name, arg: int, h: Heap)
    requires obj < |world| && here.level < |world[obj]| && fuel >= 1 && (obj, n) !in h
    requires level < |world[obj]| && n in world[obj][level] && world[obj][level][n] == Func(Throw(Arg), true)
    requires Resolve(world[obj], n) == Some(Fun(level, n))
    ensures StatEval(world, fuel, CatchingBody(n), obj, here, arg, h)
         == StatInvoke(world, fuel, obj, Resolve(world[obj][..here.level], here.name), arg, h)
  {
    ThrowerThrows(world, fuel, obj, here, level, n, arg, h);
    var r := StatInvoke(world, fuel, obj, Resolve(world[obj][..here.level], here.name), arg, h);
    assert StatEval(world, fuel, Super(Arg), obj, here, arg, h) == r;
  }

  /** Statically it runs the parent's `m`: the two agree exactly when those two calls agree. */
  lemma CatchMeansM(world: seq<Class>, fuel: nat, obj: Oid, parent: Class, m: Name, n: Name, arg: int, h: Heap)
    requires obj < |world| && world[obj] == parent + [CatchingLayer(m, n)] && fuel >= 2
    requires m != n && (obj, m) !in h && (obj, n) !in h
    ensures StatCall(world, fuel, obj, m, arg, h) == StatInvoke(world, fuel - 1, obj, Resolve(parent, m), arg, h)
  {
    var layer := CatchingLayer(m, n);
    TopLayer(parent, layer, m, Always);
    TopLayer(parent, layer, n, Always);
    CatcherMeans(world, fuel - 1, obj, Fun(|parent|, m), |parent|, n, arg, h);
  }

  /** `helper` overrides no function, and yet calls super. */
  function LeakingLayer(m: Name, helper: Name): Layer {
    map[m := Func(Call(None, helper, Arg), true), helper := Func(Super(Arg), false)]
  }

  lemma HelperRuns(ps: seq<Chain>, fuel: nat, obj: Oid, level: nat, helper: Name, arg: int, st: State)
    requires obj < |ps| == |st.slots| && fuel >= 1 && level < |ps[obj]| && helper in ps[obj][level]
    requires ps[obj][level][helper] == Plain(Super(Arg))
    requires Resolve(ps[obj], helper) == Some(Fun(level, helper)) && (obj, helper) !in st.heap
    ensures DynEval(ps, fuel, Call(None, helper, Arg), obj, arg, st)
            == DynInvoke(ps, fuel - 1, obj, st.slots[obj], arg, st)
  {
    assert DynEval(ps, fuel - 1, Super(Arg), obj, arg, st) == DynInvoke(ps, fuel - 1, obj, st.slots[obj], arg, st);
  }

  lemma LeakerCalled(ps: seq<Chain>, fuel: nat, obj: Oid, level: nat, m: Name, helper: Name, below: Option<Fun>,
          arg: int, st: State)
    requires obj < |ps| == |st.slots| && fuel >= 2 && (obj, helper) !in st.heap
    requires WrappedAt(ps[obj], level, m, Call(None, helper, Arg), below)
    requires helper in ps[obj][level] && ps[obj][level][helper] == Plain(Super(Arg))
    requires Resolve(ps[obj], helper) == Some(Fun(level, helper))
    ensures DynInvoke(ps, fuel, obj, Some(Fun(level, m)), arg, st) ==
            PutBack(DynInvoke(ps, fuel - 2, obj, below, arg, st.(slots := st.slots[obj := below])), obj, st.slots[obj])
  {
    WrapperRuns(ps, fuel, obj, level, m, Call(None, helper, Arg), below, arg, st);
    HelperRuns(ps, fuel - 1, obj, level, helper, arg, st.(slots := st.slots[obj := below]));
  }

  lemma LeakingBuilt(world: seq<Class>, test: FnTest, obj: Oid, parent: Class, m: Name, helper: Name)
    requires obj < |world| && world[obj] == parent + [LeakingLayer(m, helper)]
    requires m != helper && DefinesFunction(parent, m) && !DefinesFunction(parent, helper)
    ensures var chain, top := BuildAll(world, test)[obj], |parent|;
            && WrappedAt(chain, top, m, Call(None, helper, Arg), Resolve(parent, m))
            && helper in chain[top] && chain[top][helper] == Plain(Super(Arg))
            && Resolve(chain, helper) == Some(Fun(top, helper))
  {
    TopLayer(parent, LeakingLayer(m, helper), m, test);
    TopLayer(parent, LeakingLayer(m, helper), helper, test);
  }

  /** Under the mutable slot, a helper that overrides nothing runs the super of its caller. */
  lemma LeakReachesCallersSuper(world: seq<Class>, test: FnTest, fuel: nat, obj: Oid, parent: Class, m: Name,
          helper: Name, arg: int, st: State)
    requires obj < |world| == |st.slots| && world[obj] == parent + [LeakingLayer(m, helper)] && fuel >= 2
    requires m != helper && DefinesFunction(parent, m) && !DefinesFunction(parent, helper)
    requires (obj, m) !in st.heap && (obj, helper) !in st.heap
    ensures DynCall(world, test, fuel, obj, m, arg, st) ==
            var inM := st.(slots := st.slots[obj := Resolve(parent, m)]);
            PutBack(DynInvoke(BuildAll(world, test), fuel - 2, obj, Resolve(parent, m), arg, inM), obj, st.slots[obj])
  {
    LeakingBuilt(world, test, obj, parent, m, helper);
    LeakerCalled(BuildAll(world, test), fuel, obj, |parent|, m, helper, Resolve(parent, m), arg, st);
  }

  lemma HelperMeans(world: seq<Class>, fuel: nat, obj: Oid, here: Fun, level: nat, helper: Name, arg: int, h: Heap)
    requires obj < |world| && here.level < |world[obj]| && fuel >= 1 && (obj, helper) !in h
    requires level < |world[obj]| && helper in world[obj][level] && world[obj][level][helper] == Func(Super(Arg), false)
    requires Resolve(world[obj], helper) == Some(Fun(level, helper))
    ensures StatEval(world, fuel, Call(None, helper, Arg), obj, here, arg, h)
         == StatInvoke(world, fuel - 1, obj, Resolve(world[obj][..level], helper), arg, h)
  {
    var r := StatInvoke(world, fuel - 1, obj, Resolve(world[obj][..level], helper), arg, h);
    assert StatEval(world, fuel - 1, Super(Arg), obj, Fun(level, helper), arg, h) == r;
    assert StatInvoke(world, fuel, obj, Some(Fun(level, helper)), arg, h) == r;
  }

  lemma NoSuchSuper(world: seq<Class>, fuel: nat, obj: Oid, parent: Class, props: Layer, helper: Name, arg: int,
          h: Heap)
    requires obj < |world| && world[obj] == parent + [props] && fuel >= 1 && !DefinesFunction(parent, helper)
    ensures StatInvoke(world, fuel, obj, Resolve(parent, helper), arg, h) == (Thrown(TypeError), h)
  {
    var f := Resolve(parent, helper);
    if f.Some? { assert world[obj][f.value.level] == parent[f.value.level]; }
  }

  /** Statically there is no such super. */
  lemma LeakMeansTypeError(world: seq<Class>, fuel: nat, obj: Oid, parent: Class, m: Name, helper: Name, arg: int,
          h: Heap)
    requires obj < |world| && world[obj] == parent + [LeakingLayer(m, helper)] && fuel >= 3
    requires m != helper && !DefinesFunction(parent, helper)
    requires (obj, m) !in h && (obj, helper) !in h
    ensures StatCall(world, fuel, obj, m, arg, h) == (Thrown(TypeError), h)
  {
    var layer := LeakingLayer(m, helper);
    TopLayer(parent, layer, m, Always);
    TopLayer(parent, layer, helper, Always);
    HelperMeans(world, fuel - 1, obj, Fun(|parent|, m), |parent|, helper, arg, h);
    NoSuchSuper(world, fuel - 2, obj, parent, layer, helper, arg, h);
  }

  /** A parent whose `m` and `n` answer 1 and 2. */
  const ANSWERS: Layer := map["m" := Func(Lit(1), false), "n" := Func(Lit(2), false)]

  lemma AnswersDirectly(world: seq<Class>, test: FnTest, fuel: nat, props: Layer, name: Name, arg: int, st: State)
    requires world == [[ANSWERS] + [props]] && |st.slots| == 1 && fuel >= 1 && name in ANSWERS
    ensures Resolve([ANSWERS], name) == Some(Fun(0, name)) && DefinesFunction([ANSWERS], name)
    ensures DynInvoke(BuildAll(world, test), fuel, 0, Some(Fun(0, name)), arg, st) == (Value(ANSWERS[name].body.n), st)
    ensures StatInvoke(world, fuel, 0, Some(Fun(0, name)), arg, st.heap) == (Value(ANSWERS[name].body.n), st.heap)
  {
    var c := world[0];
    assert c[0] == ANSWERS && c[..0] == [];
    WrappedExactly(c, 0, name, test);
    assert [ANSWERS][..0] == [];
  }

  /** An exception caught inside a method: the program then reaches the wrong super. */
  lemma CatchLeavesStaleSuper(world: seq<Class>, test: FnTest, arg: int)
    requires world == [[ANSWERS] + [CatchingLayer("m", "n")]]
    ensures DynFinishes(world, test, 0, "m", arg, State(map[], [None]), Value(2), map[])
    ensures StatFinishes(world, 0, "m", arg, map[], Value(1), map[])
  {
    var layer, st := CatchingLayer("m", "n"), State(map[], [None]);
    var inN := State(map[], st.slots[0 := Some(Fun(0, "n"))]);
    var fuel: nat :| fuel == 2;
    AnswersDirectly(world, test, fuel - 1, layer, "m", arg, st);
    AnswersDirectly(world, test, fuel - 1, layer, "n", arg, inN);
    CatchReachesN(world, test, fuel, 0, [ANSWERS], "m", "n", arg, st);
    CatchMeansM(world, fuel, 0, [ANSWERS], "m", "n", arg, map[]);
  }

  /** A super call outside the discipline: the program answers where there is no super at all. */
  lemma CallersSuperLeaks(world: seq<Class>, test: FnTest, arg: int)
    requires world == [[ANSWERS] + [LeakingLayer("m", "helper")]]
    ensures DynFinishes(world, test, 0, "m", arg, State(map[], [None]), Value(1), map[])
    ensures StatFinishes(world, 0, "m", arg, map[], Thrown(TypeError), map[])
  {
    var layer, st := LeakingLayer("m", "helper"), State(map[], [None]);
    var inM := State(map[], st.slots[0 := Some(Fun(0, "m"))]);
    var fuel: nat :| fuel == 3;
    assert [ANSWERS][..0] == [];
    AnswersDirectly(world, test, fuel - 2, layer, "m", arg, inM);
    LeakReachesCallersSuper(world, test, fuel, 0, [ANSWERS], "m", "helper", arg, st);
    LeakMeansTypeError(world, fuel, 0, [ANSWERS], "m", "helper", arg, map[]);
  }

  /** A method that a class inherits is its parent's, whatever the layers on top hold beside it. */
  lemma InheritedIsParents(world: seq<Class>, test: FnTest, fuel: nat, obj: Oid, k: nat, name: Name, arg: int,
          st: State)
    requires obj < |world| == |st.slots| && (obj, name) !in st.heap
    requires k < |world[obj]| && name in world[obj][k] && forall j :: k < j < |world[obj]| ==> name !in world[obj][j]
    ensures StatCall(world, fuel, obj, name, arg, st.heap)
            == StatInvoke(world, fuel, obj, Some(Fun(k, name)), arg, st.heap)
    ensures DynCall(world, test, fuel, obj, name, arg, st)
            == DynInvoke(BuildAll(world, test), fuel, obj, Some(Fun(k, name)), arg, st)
  {
    BuiltPrefix(world[obj], |world[obj]|, test, name);
    var chain := Build(world[obj], test);
    assert chain[..|world[obj]|] == chain && world[obj][..|world[obj]|] == world[obj];
    ResolveIsNearest(world[obj], name, k);
  }

  // ---------- The running program ----------

  lemma BuildExtends(layers: Class, props: Layer, test: FnTest)
    ensures Build(layers + [props], test) == Build(layers, test) + [BuildProto(Build(layers, test), props, test)]
  {
    assert (layers + [props])[..|layers|] == layers;
  }

  /** The page's objects: their classes, their fields and their `_super` slots. */
  class Runtime {
    const test: FnTest
    var initializing: bool
    var chains: seq<Chain>
    var slots: seq<Option<Fun>>
    var heap: Heap

    predicate Valid()
      reads this
    {
      |chains| == |slots| && forall k :: k in heap ==> k.0 < |chains|
    }

    function Now(): State
      reads this
    {
      State(heap, slots)
    }

    constructor (test: FnTest)
      ensures Valid() && !initializing && chains == [] && heap == map[] && this.test == test
    {
      this.test := test;
      initializing := false;
      chains, slots, heap := [], [], map[];
    }

    method Eval(fuel: nat, e: Expr, self: Oid, arg: int) returns (o: Outcome)
      requires Valid() && self < |chains|
      modifies `slots, `heap
      ensures Valid() && (o, Now()) == DynEval(chains, fuel, e, self, arg, old(Now()))
      decreases fuel, 1, e
    {
      match e
      case Lit(n) => o := Value(n);
      case Arg => o := Value(arg);
      case Get(f) => o := Value(Read(heap, self, chains[self], f));
      case Set(f, v) =>
        o := Eval(fuel, v, self, arg);
        if o.Value? { heap := heap[(self, f) := o.n]; }
      case Bin(op, l, r) =>
        o := Eval(fuel, l, self, arg);
        if o.Value? {
          var x := o.n;
          o := Eval(fuel, r, self, arg);
          if o.Value? { o := Value(Apply(op, x, o.n)); }
        }
      case If(c, t, f) =>
        o := Eval(fuel, c, self, arg);
        if o.Value? {
          if o.n != 0 { o := Eval(fuel, t, self, arg); } else { o := Eval(fuel, f, self, arg); }
        }
      case Super(a) =>
        var f := slots[self];
        o := Eval(fuel, a, self, arg);
        if o.Value? { o := Invoke(fuel, self, f, o.n); }
      case Call(target, m, a) =>
        var obj := if target.Some? then target.value else self;
        var f := if obj < |chains| then Method(heap, obj, chains[obj], m) else None;
        o := Eval(fuel, a, self, arg);
        if o.Value? {
          if obj < |chains| { o := Invoke(fuel, obj, f, o.n); } else { o := Thrown(TypeError); }
        }
      case Throw(x) =>
        o := Eval(fuel, x, self, arg);
        if o.Value? { o := Thrown(User(o.n)); }
      case Try(b, h) =>
        o := Eval(fuel, b, self, arg);
        if o.Thrown? { o := Eval(fuel, h, self, arg); }
    }

    /** The wrapper itself: save `this._super`, bind the overridden method, run, put back. */
    method Invoke(fuel: nat, self: Oid, f: Option<Fun>, arg: int) returns (ret: Outcome)
      requires Valid() && self < |chains|
      modifies `slots, `heap
      ensures Valid() && (ret, Now()) == DynInvoke(chains, fuel, self, f, arg, old(Now()))
      decreases fuel, 0
    {
      if f.None? || f.value.level >= |chains[self]| || f.value.name !in chains[self][f.value.level] {
        return Thrown(TypeError);
      }
      if fuel == 0 { return OutOfFuel; }
      var Fun(level, name) := f.value;
      match chains[self][level][name]
      case DataEntry(_) => ret := Thrown(TypeError);
      case Plain(body) => ret := Eval(fuel - 1, body, self, arg);
      case Wrapped(body) =>
        var tmp := slots[self];
        slots := slots[self := Resolve(chains[self][..level], name)];
        ret := Eval(fuel - 1, body, self, arg);
        if ret.Value? { slots := slots[self := tmp]; }
    }

    /** `new C(arg)`: the base Class does nothing; other classes run `init` unless a class is being defined. */
    method New(chain: Chain, arg: int, fuel: nat) returns (obj: Oid, o: Outcome)
      requires Valid()
      modifies `chains, `slots, `heap
      ensures Valid() && obj == old(|chains|) && chains == old(chains) + [chain]
      ensures var init := Resolve(chain, "init");
              var st := State(old(heap), old(slots) + [None]);
              (o, Now()) ==
              if initializing || |chain| <= 1 || init.None? || chain[init.value.level]["init"] == DataEntry(0)
                then (Value(0), st)
              else DynInvoke(chains, fuel, obj, init, arg, st)
    {
      obj := |chains|;
      chains, slots := chains + [chain], slots + [None];
      o := Value(0);
      var init := Resolve(chain, "init");
      if |chain| > 1 && !initializing && init.Some? && chain[init.value.level]["init"] != DataEntry(0) {
        o := Invoke(fuel, obj, init, arg);
      }
    }

    /** `Class.extend(props)`: makes a prototype without running `init`, then copies the
        properties onto it in whatever order the engine lists them. */
    method Extend(parent: Chain, props: Layer) returns (chain: Chain)
      requires Valid()
      modifies this
      ensures Valid() && !initializing
      ensures heap == old(heap) && slots == old(slots) + [None] && chains == old(chains) + [parent]
      ensures forall layers: Class :: parent == Build(layers, test) ==> chain == Build(layers + [props], test)
    {
      initializing := true;
      var instance, _ := New(parent, 0, 0);
      initializing := false;
      var prototype: Proto := map[];
      var names := props.Keys;
      while names != {}
        invariant names <= props.Keys && prototype.Keys == props.Keys - names
        invariant forall n :: n in prototype ==> prototype[n] == BuildEntry(parent, n, props[n], test)
        decreases names
      {
        var name :| name in names;
        var prop := props[name];
        var overridden := Resolve(parent, name);
        if prop.Func? && overridden.Some? && !parent[overridden.value.level][name].DataEntry?
           && TestFn(test, prop.body, prop.textual) {
          prototype := prototype[name := Wrapped(prop.body)];
        } else if prop.Func? {
          prototype := prototype[name := Plain(prop.body)];
        } else {
          prototype := prototype[name := DataEntry(prop.n)];
        }
        names := names - {name};
      }
      chain := parent + [prototype];
      assert prototype == BuildProto(parent, props, test);
      forall layers: Class | parent == Build(layers, test) ensures chain == Build(layers + [props], test) {
        BuildExtends(layers, props, test);
      }
    }
  }
}
