/**
 Dragonfly's function registry (`Dragonfly::FunctionManager`).

 The registry keeps a table from operation name to the handlers added under
 that name, oldest first, and the list of extension objects registered with
 it. Calling a name tries its handlers newest first; a handler may decline
 (Ruby's `throw :unable_to_handle`), which passes the call on to the next
 older handler. The registry is a value here: operations that change it
 return the new registry, and `CallLast` and `Inspect` return no registry,
 so they cannot change it.
 */
module FunctionManager {
  import opened Options
  import opened Text

  /** An operation name (a Ruby symbol; `to_sym` is the identity here). */
  type Name = string

  /** What one handler does with one call: it returns a value, declines
      (`throw :unable_to_handle`), or raises an exception. Arguments, results
      and exceptions are all Ruby objects, so one type `V` stands for them. */
  datatype Outcome<V> = Handled(value: V) | Declined | Raised(error: V)

  /** A callable: a bound method of a registered object, a proc, or a block. */
  type Handler<!V> = seq<V> -> Outcome<V>

  type Table<!V> = map<Name, seq<Handler<V>>>

  /** An extension object as `register` sees it. Ruby reflection is replaced
      by an explicit list of the object's public method names, and
      `obj.method(meth)` by `bind`. */
  datatype Extension<!V> = Extension(
    surface: seq<Name>,              // obj.public_methods(false), in Ruby's order
    bind: Name -> Handler<V>,        // obj.method(meth)
    configurable: bool,              // obj.is_a?(Configurable)
    ownConfigure: bool,              // defines a `configure` of its own, outside Configurable
    configurationMethods: seq<Name>  // obj.configuration_methods, each through to_method_name
  )

  /** `obj.configure(&block)` finds a method to call: the one `Configurable`
      brings, or one the object defines itself. */
  predicate AnswersConfigure<V>(obj: Extension<V>)
  {
    obj.configurable || obj.ownConfigure
  }

  /** The registry's two pieces of state: `functions` and `objects`. */
  datatype Registry<!V> = Registry(functions: Table<V>, objects: seq<Extension<V>>)

  /** The name of the method a configurable object lists its settings with;
      it never becomes a handler. */
  const ConfigurationMethodsName: Name := "configuration_methods"

  /** How much of each argument's `inspect` text an error message keeps:
      Ruby's `[0..100]` is an inclusive range, so 101 characters. */
  const InspectLimit: nat := 101

  /** Every name in the table has at least one handler. */
  predicate Valid<V>(reg: Registry<V>)
  {
    forall n :: n in reg.functions ==> |reg.functions[n]| > 0
  }

  /** The handlers under `name`, oldest first; none if it is not in the table. */
  function Listed<V>(t: Table<V>, name: Name): seq<Handler<V>>
  {
    if name in t then t[name] else []
  }

  /** `k` copies of one handler. */
  function Copies<V>(h: Handler<V>, k: nat): (r: seq<Handler<V>>)
    ensures |r| == k
    ensures forall i :: 0 <= i < k ==> r[i] == h
  {
    seq(k, _ => h)
  }

  lemma CopiesSucc<V>(h: Handler<V>, k: nat)
    ensures [h] + Copies(h, k) == Copies(h, k + 1)
  {
  }

  // ---------------------------------------------------------------------------
  // initialize, add
  // ---------------------------------------------------------------------------

  /** `initialize`: no handlers and no objects. */
  function New<V>(): (reg: Registry<V>)
    ensures Valid(reg)
    ensures forall n :: Listed(reg.functions, n) == []
    ensures reg.objects == []
  {
    Registry(map[], [])
  }

  /** `add(name, callable)`: appends the handler to the list for `name`,
      starting a list if there was none. */
  function Add<V>(reg: Registry<V>, name: Name, h: Handler<V>): (r: Registry<V>)
    ensures r.functions.Keys == reg.functions.Keys + {name}
    ensures Listed(r.functions, name) == Listed(reg.functions, name) + [h]
    ensures forall n :: n != name ==> Listed(r.functions, n) == Listed(reg.functions, n)
    ensures r.objects == reg.objects
    ensures Valid(reg) ==> Valid(r)
  {
    reg.(functions := reg.functions[name := Listed(reg.functions, name) + [h]])
  }

  // ---------------------------------------------------------------------------
  // register, methods_to_add
  // ---------------------------------------------------------------------------

  /** Ruby's array difference `s - ex`: every element of `s` that is not in
      `ex`, in order, repeats kept. */
  function Without(s: seq<Name>, ex: set<Name>): (r: seq<Name>)
    ensures forall x :: multiset(r)[x] == if x in ex then 0 else multiset(s)[x]
    decreases |s|
  {
    if |s| == 0 then []
    else
      var rest := Without(s[1..], ex);
      assert s == [s[0]] + s[1..];
      if s[0] in ex then rest else [s[0]] + rest
  }

  /** The names a configurable object keeps out of the table: its
      configuration methods and `configuration_methods` itself. */
  function Excluded<V>(obj: Extension<V>): set<Name>
  {
    if obj.configurable then
      (set n | n in obj.configurationMethods) + {ConfigurationMethodsName}
    else {}
  }

  /** `methods_to_add(obj)`: the object's public methods, less the
      configuration protocol's names when it is configurable. */
  function MethodsToAdd<V>(obj: Extension<V>): (names: seq<Name>)
    ensures forall n :: multiset(names)[n] == if n in Excluded(obj) then 0 else multiset(obj.surface)[n]
    ensures forall n :: n in names <==> n in obj.surface && n !in Excluded(obj)
  {
    if obj.configurable then
      Without(obj.surface, (set n | n in obj.configurationMethods) + {ConfigurationMethodsName})
    else
      obj.surface
  }

  /** One `add` seen from a single name: `n` gains `h` when it is the name
      added to, and nothing otherwise. */
  lemma AddThenCopies<V>(reg: Registry<V>, first: Registry<V>, m: Name, h: Handler<V>, n: Name, k: nat)
    requires first == Add(reg, m, h)
    ensures n == m ==> Listed(first.functions, n) + Copies(h, k) == Listed(reg.functions, n) + Copies(h, k + 1)
    ensures n != m ==> Listed(first.functions, n) == Listed(reg.functions, n)
  {
    if n == m {
      CopiesSucc(h, k);
      assert Listed(first.functions, n) + Copies(h, k) == Listed(reg.functions, n) + ([h] + Copies(h, k));
    }
  }

  /** The handler lists after one `add` and then a run of them, seen from
      each name: the count of copies a name gains is its count among all
      the names added. */
  lemma AddThenEach<V>(reg: Registry<V>, r: Registry<V>, names: seq<Name>, obj: Extension<V>)
    requires |names| > 0
    requires forall n ::
      Listed(r.functions, n) == Listed(Add(reg, names[0], obj.bind(names[0])).functions, n) + Copies(obj.bind(n), multiset(names[1..])[n])
    ensures forall n :: Listed(r.functions, n) == Listed(reg.functions, n) + Copies(obj.bind(n), multiset(names)[n])
  {
    var first := Add(reg, names[0], obj.bind(names[0]));
    assert names == [names[0]] + names[1..];
    forall n
      ensures Listed(r.functions, n) == Listed(reg.functions, n) + Copies(obj.bind(n), multiset(names)[n])
    {
      AddThenCopies(reg, first, names[0], obj.bind(names[0]), n, multiset(names[1..])[n]);
    }
  }

  /** The loop of `register`: `add meth, obj.method(meth)` for each name, in order. */
  function AddEach<V>(reg: Registry<V>, names: seq<Name>, obj: Extension<V>): (r: Registry<V>)
    ensures r.objects == reg.objects
    ensures forall n :: n in r.functions <==> n in reg.functions || n in names
    ensures forall n :: Listed(r.functions, n) == Listed(reg.functions, n) + Copies(obj.bind(n), multiset(names)[n])
    ensures Valid(reg) ==> Valid(r)
    decreases |names|
  {
    if |names| == 0 then reg
    else
      var r := AddEach(Add(reg, names[0], obj.bind(names[0])), names[1..], obj);
      assert names == [names[0]] + names[1..];
      AddThenEach(reg, r, names, obj);
      r
  }

  /** What a configuration block does to the object: it sets the object up,
      or raises an exception. */
  datatype Configuring<!V> = Configured(obj: Extension<V>) | ConfigureFailed(error: V)

  /** What `register` can come to. `obj.configure(&block)` on an object with
      no `configure` method raises NoMethodError, and a block that raises
      passes its exception on; both happen before anything is added. An
      error carries no registry: the caller's registry is the one that
      stands. */
  datatype Registration<!V> =
    | Registered(registry: Registry<V>, obj: Extension<V>)
    | NoConfigureMethod
    | ConfigureRaised(error: V)

  /** `register(klass, *args, &block)`, given the instance `klass.new(*args)`
      built and the optional configuration block: configures the object,
      adds one handler per method to add, records the object and returns it. */
  function Register<V>(reg: Registry<V>, obj: Extension<V>, configure: Option<Extension<V> -> Configuring<V>>)
    : (out: Registration<V>)
    ensures out.NoConfigureMethod? <==> configure.Some? && !AnswersConfigure(obj)
    ensures out.ConfigureRaised? <==>
      configure.Some? && AnswersConfigure(obj) && configure.value(obj).ConfigureFailed?
    ensures out.ConfigureRaised? ==> out.error == configure.value(obj).error
    ensures out.Registered? && configure.Some? ==> out.obj == configure.value(obj).obj
    ensures out.Registered? && configure.None? ==> out.obj == obj
    ensures out.Registered? ==> out.registry.objects == reg.objects + [out.obj]
    ensures out.Registered? ==>
      forall n :: n in out.registry.functions <==>
        n in reg.functions || (n in out.obj.surface && n !in Excluded(out.obj))
    ensures out.Registered? ==>
      forall n :: Listed(out.registry.functions, n)
        == Listed(reg.functions, n)
           + Copies(out.obj.bind(n), if n in Excluded(out.obj) then 0 else multiset(out.obj.surface)[n])
    ensures out.Registered? && Valid(reg) ==> Valid(out.registry)
  {
    if configure.Some? && !AnswersConfigure(obj) then NoConfigureMethod
    else if configure.Some? && configure.value(obj).ConfigureFailed? then
      ConfigureRaised(configure.value(obj).error)
    else
      var configured := if configure.Some? then configure.value(obj).obj else obj;
      var added := AddEach(reg, MethodsToAdd(configured), configured);
      Registered(added.(objects := added.objects + [configured]), configured)
  }

  /** No name appears twice; true of what `public_methods` returns. */
  predicate NoRepeats(s: seq<Name>)
  {
    forall i, j :: 0 <= i < j < |s| ==> s[i] != s[j]
  }

  lemma {:induction false} OccursOnce(s: seq<Name>, x: Name)
    requires NoRepeats(s)
    requires x in s
    ensures multiset(s)[x] == 1
    decreases |s|
  {
    assert s == [s[0]] + s[1..];
    if s[0] == x {
      assert x !in s[1..];
    } else {
      OccursOnce(s[1..], x);
    }
  }

  /** With the public methods listed once each (as Ruby lists them),
      `register` gives each method to add exactly one handler, the bound
      method, and leaves every other name's list as it was. */
  lemma RegisterAddsOneHandlerPerMethod<V>(
    reg: Registry<V>, obj: Extension<V>, configure: Option<Extension<V> -> Configuring<V>>, n: Name)
    requires configure.None? || (AnswersConfigure(obj) && configure.value(obj).Configured?)
    requires NoRepeats((if configure.Some? then configure.value(obj).obj else obj).surface)
    ensures Register(reg, obj, configure).Registered?
    ensures var out := Register(reg, obj, configure);
      n in out.obj.surface && n !in Excluded(out.obj) ==>
        Listed(out.registry.functions, n) == Listed(reg.functions, n) + [out.obj.bind(n)]
    ensures var out := Register(reg, obj, configure);
      !(n in out.obj.surface && n !in Excluded(out.obj)) ==>
        Listed(out.registry.functions, n) == Listed(reg.functions, n)
  {
    var out := Register(reg, obj, configure);
    var o := out.obj;
    var k := if n in Excluded(o) then 0 else multiset(o.surface)[n];
    assert Listed(out.registry.functions, n) == Listed(reg.functions, n) + Copies(o.bind(n), k);
    CopiesOfListedOnce(o.surface, Excluded(o), o.bind(n), n);
  }

  lemma CopiesOfListedOnce<V>(surface: seq<Name>, ex: set<Name>, h: Handler<V>, n: Name)
    requires NoRepeats(surface)
    ensures n in surface && n !in ex ==> Copies(h, multiset(surface)[n]) == [h]
    ensures n !in surface || n in ex ==> Copies(h, if n in ex then 0 else multiset(surface)[n]) == []
  {
    if n in surface {
      OccursOnce(surface, n);
    }
  }

  // ---------------------------------------------------------------------------
  // call_last
  // ---------------------------------------------------------------------------

  /** `s.reverse` */
  function Reverse<T>(s: seq<T>): (r: seq<T>)
    ensures |r| == |s|
    ensures forall i :: 0 <= i < |s| ==> r[i] == s[|s| - 1 - i]
    decreases |s|
  {
    if |s| == 0 then [] else [s[|s| - 1]] + Reverse(s[..|s| - 1])
  }

  /** Where a walk down a handler list stopped: at the first handler that did
      not decline, with what it did, or past the end. */
  datatype Walk<V> = Stopped(at: nat, outcome: Outcome<V>) | Exhausted

  /** The `each` / `catch :unable_to_handle` loop: calls the handlers in the
      order given until one does not decline. */
  function FirstAnswer<V>(hs: seq<Handler<V>>, args: seq<V>): (w: Walk<V>)
    ensures w.Stopped? ==> w.at < |hs| && w.outcome == hs[w.at](args) && !w.outcome.Declined?
    ensures w.Stopped? ==> forall j :: 0 <= j < w.at ==> hs[j](args).Declined?
    ensures w.Exhausted? ==> forall j :: 0 <= j < |hs| ==> hs[j](args).Declined?
    decreases |hs|
  {
    if |hs| == 0 then Exhausted
    else if hs[0](args).Declined? then
      match FirstAnswer(hs[1..], args)
      case Stopped(at, o) => Stopped(at + 1, o)
      case Exhausted => Exhausted
    else Stopped(0, hs[0](args))
  }

  /** The walk over `hs.reverse`, with where it stopped given as an index
      into `hs`: the newest handler that does not decline. */
  function NewestAnswer<V>(hs: seq<Handler<V>>, args: seq<V>): (w: Walk<V>)
    ensures w.Stopped? ==> w.at < |hs| && w.outcome == hs[w.at](args) && !w.outcome.Declined?
    ensures w.Stopped? ==> forall j :: w.at < j < |hs| ==> hs[j](args).Declined?
    ensures w.Exhausted? ==> forall j :: 0 <= j < |hs| ==> hs[j](args).Declined?
  {
    var rs := Reverse(hs);
    match FirstAnswer(rs, args)
    case Stopped(at, o) =>
      assert forall j :: |hs| - 1 - at < j < |hs| ==> hs[j](args).Declined? by {
        forall j | |hs| - 1 - at < j < |hs|
          ensures hs[j](args).Declined?
        {
          assert rs[|hs| - 1 - j] == hs[j];
        }
      }
      Stopped(|hs| - 1 - at, o)
    case Exhausted =>
      assert forall j :: 0 <= j < |hs| ==> hs[j](args).Declined? by {
        forall j | 0 <= j < |hs|
          ensures hs[j](args).Declined?
        {
          assert rs[|hs| - 1 - j] == hs[j];
        }
      }
      Exhausted
  }

  /** What `call_last` comes to. An exception a handler raises propagates
      unchanged (`Propagated`); the registry's own two exceptions carry their
      message, and UnableToHandle also the truncated argument renderings. */
  datatype Reply<V> =
    | Returned(value: V)
    | Propagated(error: V)
    | NotDefined(message: string)
    | UnableToHandle(message: string, renderings: seq<string>)

  /** A call's reply and how many handlers it invoked. */
  datatype Call<V> = Call(reply: Reply<V>, tried: nat)

  function NotDefinedMessage(meth: Name, self: string): string
  {
    "function " + meth + " not registered with " + self
  }

  /** `args.map{|a| a.inspect[0..100]}`, with `inspect` given. */
  function Renderings<V>(args: seq<V>, inspect: V -> string): (r: seq<string>)
    ensures |r| == |args|
    ensures forall i :: 0 <= i < |args| ==> |r[i]| <= InspectLimit && r[i] <= inspect(args[i])
    ensures forall i :: 0 <= i < |args| && |inspect(args[i])| <= InspectLimit ==> r[i] == inspect(args[i])
    ensures forall i :: 0 <= i < |args| && |inspect(args[i])| > InspectLimit ==> |r[i]| == InspectLimit
  {
    seq(|args|, i requires 0 <= i < |args| => Prefix(inspect(args[i]), InspectLimit))
  }

  function UnableMessage(self: string, meth: Name, renderings: seq<string>): string
  {
    "None of the functions registered with " + self + " were able to deal with the method call "
    + meth + "(" + Join(renderings, ",") + "). You may need to register one that can."
  }

  /** `call_last(meth, *args)`. `self` is the registry's `to_s` text and
      `inspect` renders an argument; both only feed error messages. */
  function CallLast<V>(reg: Registry<V>, meth: Name, args: seq<V>, self: string, inspect: V -> string)
    : (c: Call<V>)
    // An unknown name fails with NotDefined and calls no handler.
    ensures c.reply.NotDefined? <==> meth !in reg.functions
    ensures c.reply.NotDefined? ==> c.tried == 0 && c.reply.message == NotDefinedMessage(meth, self)
    // The handlers invoked are the newest `tried` ones; every one of them but
    // the oldest declined (all of them, when the call found no taker).
    ensures c.tried <= |Listed(reg.functions, meth)|
    ensures var hs := Listed(reg.functions, meth);
      forall i :: |hs| - c.tried < i < |hs| ==> hs[i](args).Declined?
    // The oldest handler invoked gave the reply.
    ensures var hs := Listed(reg.functions, meth);
      c.reply.Returned? ==> 0 < c.tried && hs[|hs| - c.tried](args) == Handled(c.reply.value)
    ensures var hs := Listed(reg.functions, meth);
      c.reply.Propagated? ==> 0 < c.tried && hs[|hs| - c.tried](args) == Raised(c.reply.error)
    // UnableToHandle exactly when the name is known and every handler declines.
    ensures var hs := Listed(reg.functions, meth);
      c.reply.UnableToHandle? <==>
        meth in reg.functions && forall i :: 0 <= i < |hs| ==> hs[i](args).Declined?
    ensures c.reply.UnableToHandle? ==>
      && c.tried == |Listed(reg.functions, meth)|
      && c.reply.renderings == Renderings(args, inspect)
      && c.reply.message == UnableMessage(self, meth, c.reply.renderings)
  {
    if meth in reg.functions then
      var hs := reg.functions[meth];
      match NewestAnswer(hs, args)
      case Stopped(k, o) =>
        Call(if o.Handled? then Returned(o.value) else Propagated(o.error), |hs| - k)
      case Exhausted =>
        var rendered := Renderings(args, inspect);
        Call(UnableToHandle(UnableMessage(self, meth, rendered), rendered), |hs|)
    else
      Call(NotDefined(NotDefinedMessage(meth, self)), 0)
  }

  /** Reference definition of who answers: handler `i` does not decline, and
      every handler added after it does. */
  predicate LatestAnswer<V>(hs: seq<Handler<V>>, args: seq<V>, i: int)
  {
    0 <= i < |hs| && !hs[i](args).Declined? && forall j :: i < j < |hs| ==> hs[j](args).Declined?
  }

  /** `call_last` replies with the latest-added handler that does not
      decline, and calls exactly the handlers added after it besides. */
  lemma CallLastIsLatestAnswer<V>(
    reg: Registry<V>, meth: Name, args: seq<V>, self: string, inspect: V -> string, i: int)
    requires meth in reg.functions
    requires LatestAnswer(reg.functions[meth], args, i)
    ensures var c := CallLast(reg, meth, args, self, inspect);
      c.tried == |reg.functions[meth]| - i
    ensures var c := CallLast(reg, meth, args, self, inspect);
      var o := reg.functions[meth][i](args);
      (o.Handled? ==> c.reply == Returned(o.value)) && (o.Raised? ==> c.reply == Propagated(o.error))
  {
    var c := CallLast(reg, meth, args, self, inspect);
    assert !c.reply.UnableToHandle?;
  }

  /** The override scenario: handler `x` added, then `y` under the same name.
      `y` is asked first; only when it declines is `x` asked. */
  lemma NewerHandlerOverrides<V>(
    x: Handler<V>, y: Handler<V>, meth: Name, args: seq<V>, self: string, inspect: V -> string)
    ensures var c := CallLast(Add(Add(New(), meth, x), meth, y), meth, args, self, inspect);
      y(args).Handled? ==> c == Call(Returned(y(args).value), 1)
    ensures var c := CallLast(Add(Add(New(), meth, x), meth, y), meth, args, self, inspect);
      y(args).Declined? && x(args).Handled? ==> c == Call(Returned(x(args).value), 2)
    ensures var c := CallLast(Add(Add(New(), meth, x), meth, y), meth, args, self, inspect);
      y(args).Declined? && x(args).Declined? ==> c.reply.UnableToHandle? && c.tried == 2
  {
    var reg := Add(Add(New(), meth, x), meth, y);
    assert reg.functions[meth] == [x, y];
    if y(args).Handled? {
      CallLastIsLatestAnswer(reg, meth, args, self, inspect, 1);
    } else if y(args).Declined? && x(args).Handled? {
      CallLastIsLatestAnswer(reg, meth, args, self, inspect, 0);
    }
  }

  /** The UnableToHandle message names the registry and the method, and shows
      every argument's rendering, each cut to at most 101 characters. */
  lemma UnableMessageMentions<V>(self: string, meth: Name, args: seq<V>, inspect: V -> string)
    ensures Contains(UnableMessage(self, meth, Renderings(args, inspect)), self)
    ensures Contains(UnableMessage(self, meth, Renderings(args, inspect)), meth)
    ensures forall i :: 0 <= i < |args| ==>
      Contains(UnableMessage(self, meth, Renderings(args, inspect)), Renderings(args, inspect)[i])
  {
    var rs := Renderings(args, inspect);
    var head := "None of the functions registered with ";
    var mid := " were able to deal with the method call ";
    var tail := "). You may need to register one that can.";
    var j := Join(rs, ",");
    ContainsAtEnd(head, self);
    ContainsExtendRight(head + self, self, mid);
    ContainsExtendRight(head + self + mid, self, meth);
    ContainsExtendRight(head + self + mid + meth, self, "(");
    ContainsExtendRight(head + self + mid + meth + "(", self, j);
    ContainsExtendRight(head + self + mid + meth + "(" + j, self, tail);
    ContainsAtEnd(head + self + mid, meth);
    ContainsExtendRight(head + self + mid + meth, meth, "(");
    ContainsExtendRight(head + self + mid + meth + "(", meth, j);
    ContainsExtendRight(head + self + mid + meth + "(" + j, meth, tail);
    forall i | 0 <= i < |args|
      ensures Contains(UnableMessage(self, meth, rs), rs[i])
    {
      JoinContainsParts(rs, ",", i);
      ContainsExtendLeft(head + self + mid + meth + "(", j, rs[i]);
      ContainsExtendRight(head + self + mid + meth + "(" + j, rs[i], tail);
    }
  }

  /** The NotDefined message names the method and the registry. */
  lemma NotDefinedMessageMentions(meth: Name, self: string)
    ensures Contains(NotDefinedMessage(meth, self), meth)
    ensures Contains(NotDefinedMessage(meth, self), self)
  {
    ContainsAtEnd("function ", meth);
    ContainsExtendRight("function " + meth, meth, " not registered with ");
    ContainsExtendRight("function " + meth + " not registered with ", meth, self);
    ContainsAtEnd("function " + meth + " not registered with ", self);
  }

  // ---------------------------------------------------------------------------
  // inspect
  // ---------------------------------------------------------------------------

  /** The `inspect` text: the registry's `to_s` text with its closing `>`
      replaced by the listing of the operation names. */
  function Described(self: string, names: seq<Name>): string
  {
    SubClosing(self, " with functions: " + Join(names, ", ") + " >")
  }

  /** When the `to_s` text has a `>` ending a line, the `inspect` text
      names every name listed. */
  lemma DescribedMentions(self: string, names: seq<Name>, k: nat)
    requires k < |names|
    requires exists i :: ClosesLine(self, i)
    ensures Contains(Described(self, names), names[k])
  {
    var j := Join(names, ", ");
    var rep := " with functions: " + j + " >";
    var m := FirstClosing(self, 0).value;
    assert Described(self, names) == self[..m] + rep + self[m + 1..];
    JoinContainsParts(names, ", ", k);
    ContainsExtendLeft(" with functions: ", j, names[k]);
    ContainsExtendRight(" with functions: " + j, names[k], " >");
    ContainsExtendLeft(self[..m], rep, names[k]);
    ContainsExtendRight(self[..m] + rep, names[k], self[m + 1..]);
  }

  /** `inspect`: the operation names sorted (`functions.keys.map(&:to_s).sort`),
      and the registry's `to_s` text (`self`) with them listed in it. */
  method Inspect<V>(reg: Registry<V>, self: string) returns (names: seq<Name>, text: string)
    ensures StrictlySorted(names)
    ensures forall n :: n in names <==> n in reg.functions
    ensures |names| == |reg.functions|
    ensures text == Described(self, names)
    ensures (exists i :: ClosesLine(self, i)) ==> forall n :: n in reg.functions ==> Contains(text, n)
    ensures NeverCloses(self) ==> text == self
  {
    names := [];
    var rest := reg.functions.Keys;
    while rest != {}
      invariant StrictlySorted(names)
      invariant rest <= reg.functions.Keys
      invariant forall n :: n in names <==> n in reg.functions && n !in rest
      invariant |names| + |rest| == |reg.functions|
      decreases rest
    {
      var k :| k in rest;
      ghost var before := names;
      names := Insert(names, k);
      assert |names| == |before| + 1 by {
        assert |multiset(names)| == |multiset(before)| + 1;
      }
      assert forall n :: n in names <==> n in before || n == k by {
        forall n
          ensures n in names <==> n in before || n == k
        {
          assert n in names <==> n in multiset(names);
          assert n in before <==> n in multiset(before);
        }
      }
      rest := rest - {k};
    }
    text := Described(self, names);
    if exists i :: ClosesLine(self, i) {
      forall n | n in reg.functions
        ensures Contains(text, n)
      {
        var k :| 0 <= k < |names| && names[k] == n;
        DescribedMentions(self, names, k);
      }
    }
  }
}
