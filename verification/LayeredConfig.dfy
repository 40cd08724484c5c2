/** config.py: settings looked up in prioritised layers, or built by constructors, then filtered,
    and rendered when they are text. Templates are literals and references to other settings. */
module LayeredConfig {
  import opened Outcomes

  datatype Part = Literal(text: string) | Ref(name: string)

  /** A setting as stored: text that may be a template, or any other value, of which only its
      text form matters here. */
  datatype Setting = Template(parts: seq<Part>) | Plain(text: string)

  /** A setting as read: rendered text, or the other value itself. */
  datatype Value = Rendered(text: string) | Other(text: string)

  /** A layer is a dictionary; or a list or text, which can be indexed but not by a name; or
      something that cannot be indexed at all and is skipped. */
  datatype Layer = Settings(settings: map<string, Setting>) | Indexed | Unsearchable

  /** What looking something up ends in: a value, an AttributeError, or a TypeError. */
  datatype Lookup<+T> = Found(value: T) | Missing | Broken

  /** A constructor reads the settings it needs, each possibly unavailable, and builds a setting
      or fails. */
  datatype Constructor = Constructor(needs: seq<string>, build: seq<Lookup<Value>> -> Option<Setting>)

  datatype Config = Config(
    layers: seq<Layer>,
    constructors: map<string, Constructor>,
    filters: map<string, Setting -> Option<Setting>>)

  // ---- Lookup ----

  /** `_search_layers`: the first layer that has the name, highest priority first. A list or text
      that is reached before raises a TypeError. */
  function Search(layers: seq<Layer>, name: string): Lookup<Setting> {
    if layers == [] then Missing
    else
      match layers[0]
      case Unsearchable => Search(layers[1..], name)
      case Indexed => Broken
      case Settings(m) => if name in m then Found(m[name]) else Search(layers[1..], name)
  }

  method SearchLayers(layers: seq<Layer>, name: string) returns (r: Lookup<Setting>)
    ensures r == Search(layers, name)
  {
    for n := 0 to |layers|
      invariant Search(layers, name) == Search(layers[n..], name)
    {
      match layers[n]
      case Unsearchable =>
      case Indexed => return Broken;
      case Settings(settings) =>
        if name in settings {
          return Found(settings[name]);
        }
    }
    return Missing;
  }

  /** The name is found in the first layer that has it, or not at all. */
  lemma {:induction false} SearchFindsFirst(layers: seq<Layer>, name: string)
    ensures var r := Search(layers, name);
            && (r.Missing? <==> forall i | 0 <= i < |layers| :: !Hides(layers[i], name))
            && (!r.Missing? ==> exists i: nat :: IsFirst(layers, name, i) && r == FoundIn(layers[i], name))
    decreases |layers|
  {
    if layers == [] {
    } else if Hides(layers[0], name) {
      assert IsFirst(layers, name, 0);
    } else {
      SearchFindsFirst(layers[1..], name);
      assert forall i | 0 < i < |layers| :: layers[i] == layers[1..][i - 1];
      if !Search(layers, name).Missing? {
        var i: nat :| IsFirst(layers[1..], name, i) && Search(layers, name) == FoundIn(layers[1..][i], name);
        assert IsFirst(layers, name, i + 1);
      }
    }
  }

  predicate IsFirst(layers: seq<Layer>, name: string, i: nat) {
    i < |layers| && Hides(layers[i], name) && forall j | 0 <= j < i :: !Hides(layers[j], name)
  }

  function FoundIn(layer: Layer, name: string): Lookup<Setting>
    requires Hides(layer, name)
  {
    if layer.Indexed? then Broken else Found(layer.settings[name])
  }

  function Filter(c: Config, name: string, s: Setting): Option<Setting> {
    if name in c.filters then c.filters[name](s) else Some(s)
  }

  function Refs(s: Option<Setting>): set<string> {
    if s.None? || s.value.Plain? then {} else set p | p in s.value.parts && p.Ref? :: p.name
  }

  // ---- Acyclic references ----

  /** The names a setting leads to have a smaller rank, and stay among the names considered. */
  ghost predicate LeadsDown(names: iset<string>, rank: string -> nat, name: string, refs: set<string>) {
    forall r | r in refs :: r in names && rank(r) < rank(name)
  }

  ghost predicate NameAcyclic(c: Config, names: iset<string>, rank: string -> nat, name: string) {
    match Search(c.layers, name)
    case Found(s) => LeadsDown(names, rank, name, Refs(Filter(c, name, s)))
    case Broken => true
    case Missing =>
      name in c.constructors ==>
        && LeadsDown(names, rank, name, set n | n in c.constructors[name].needs)
        && forall inputs ::
             var built := c.constructors[name].build(inputs);
             built.Some? ==> LeadsDown(names, rank, name, Refs(Filter(c, name, built.value)))
  }

  /** A set of names closed under references, with a rank that every reference lowers. */
  ghost predicate Acyclic(c: Config, names: iset<string>, rank: string -> nat) {
    forall name | name in names :: NameAcyclic(c, names, rank, name)
  }

  // ---- Evaluation ----

  /** `config[name]`. A failing filter is an AttributeError. */
  function Read(c: Config, ghost names: iset<string>, ghost rank: string -> nat, name: string): Lookup<Value>
    requires Acyclic(c, names, rank) && name in names
    decreases rank(name), 3
  {
    assert NameAcyclic(c, names, rank, name);
    match Get(c, names, rank, name)
    case Missing => Missing
    case Broken => Broken
    case Found(s) =>
      match Filter(c, name, s)
      case None => Missing
      case Some(Plain(text)) => Found(Other(text))
      case Some(Template(parts)) =>
        match Render(c, names, rank, rank(name), parts)
        case Missing => Missing
        case Broken => Broken
        case Found(text) => Found(Rendered(text))
  }

  /** `_get_value`: the layers first, then the constructor, unless the layers raised a TypeError. */
  function Get(c: Config, ghost names: iset<string>, ghost rank: string -> nat, name: string): (r: Lookup<Setting>)
    requires Acyclic(c, names, rank) && name in names
    ensures r.Found? ==> LeadsDown(names, rank, name, Refs(Filter(c, name, r.value)))
    decreases rank(name), 2
  {
    assert NameAcyclic(c, names, rank, name);
    match Search(c.layers, name)
    case Found(s) => Found(s)
    case Broken => Broken
    case Missing =>
      if name !in c.constructors then Missing
      else
        var con := c.constructors[name];
        assert forall n | n in con.needs :: n in names && rank(n) < rank(name);
        match con.build(ReadAll(c, names, rank, rank(name), con.needs))
        case None => Missing
        case Some(s) => Found(s)
  }

  function ReadAll(c: Config, ghost names: iset<string>, ghost rank: string -> nat, ghost bound: nat,
                   needs: seq<string>): seq<Lookup<Value>>
    requires Acyclic(c, names, rank)
    requires forall n | n in needs :: n in names && rank(n) < bound
    decreases bound, 1, |needs|
  {
    if needs == [] then [] else [Read(c, names, rank, needs[0])] + ReadAll(c, names, rank, bound, needs[1..])
  }

  /** Rendering: a name that is not in the configuration renders as nothing, one that is but
      cannot be read fails the whole. */
  function Render(c: Config, ghost names: iset<string>, ghost rank: string -> nat, ghost bound: nat,
                  parts: seq<Part>): Lookup<string>
    requires Acyclic(c, names, rank)
    requires forall p | p in parts && p.Ref? :: p.name in names && rank(p.name) < bound
    decreases bound, 1, |parts|
  {
    if parts == [] then Found("")
    else
      var first := match parts[0]
                   case Literal(text) => Found(text)
                   case Ref(name) => RefText(c, names, rank, name);
      Both(first, Render(c, names, rank, bound, parts[1..]))
  }

  /** One text after the other, or the first failure. */
  function Both(first: Lookup<string>, rest: Lookup<string>): Lookup<string> {
    if !first.Found? then first else if !rest.Found? then rest else Found(first.value + rest.value)
  }

  function RefText(c: Config, ghost names: iset<string>, ghost rank: string -> nat, name: string): Lookup<string>
    requires Acyclic(c, names, rank) && name in names
    decreases rank(name), 4
  {
    if Get(c, names, rank, name).Missing? then Found("")
    else
      match Read(c, names, rank, name)
      case Missing => Missing
      case Broken => Broken
      case Found(v) => Found(v.text)
  }

  // ---- What rendering means ----

  /** What a name stands for before filtering: what the layers have; when they have nothing, what the
      name's constructor builds from the settings it needs, read in this order, if anything. */
  ghost predicate StandsFor(c: Config, names: iset<string>, rank: string -> nat, name: string, got: Lookup<Setting>)
    requires Acyclic(c, names, rank) && name in names
  {
    match Search(c.layers, name)
    case Found(s) => got == Found(s)
    case Broken => got == Broken
    case Missing =>
      if name !in c.constructors then got == Missing
      else exists inputs :: BuiltFrom(c, names, rank, c.constructors[name], inputs, got)
  }

  ghost predicate BuiltFrom(c: Config, names: iset<string>, rank: string -> nat, con: Constructor,
                            inputs: seq<Lookup<Value>>, got: Lookup<Setting>)
    requires Acyclic(c, names, rank)
  {
    && |inputs| == |con.needs|
    && (forall i | 0 <= i < |inputs| :: con.needs[i] in names && inputs[i] == Read(c, names, rank, con.needs[i]))
    && if con.build(inputs).Some? then got == Found(con.build(inputs).value) else got == Missing
  }

  lemma {:induction false} ReadAllReads(c: Config, names: iset<string>, rank: string -> nat, bound: nat,
                                        needs: seq<string>)
    requires Acyclic(c, names, rank)
    requires forall n | n in needs :: n in names && rank(n) < bound
    ensures var r := ReadAll(c, names, rank, bound, needs);
            |r| == |needs| && forall i | 0 <= i < |r| :: r[i] == Read(c, names, rank, needs[i])
    decreases |needs|
  {
    hide Acyclic, Read;
    if needs == [] {
    } else {
      ReadAllReads(c, names, rank, bound, needs[1..]);
    }
  }

  /** What `_get_value` gives is the one thing that the name stands for. */
  lemma GetIs(c: Config, names: iset<string>, rank: string -> nat, name: string)
    requires Acyclic(c, names, rank) && name in names
    ensures forall got :: StandsFor(c, names, rank, name, got) <==> got == Get(c, names, rank, name)
  {
    assert NameAcyclic(c, names, rank, name);
    if Search(c.layers, name).Missing? && name in c.constructors {
      var con := c.constructors[name];
      assert forall n | n in con.needs :: n in (set k | k in con.needs);
      ReadAllReads(c, names, rank, rank(name), con.needs);
      var all := ReadAll(c, names, rank, rank(name), con.needs);
      assert BuiltFrom(c, names, rank, con, all, Get(c, names, rank, name));
      forall inputs, got | BuiltFrom(c, names, rank, con, inputs, got) ensures inputs == all {
      }
    }
  }

  /** The text that a reference contributes: nothing for a name that stands for nothing; else the text of
      what is read, or the failure. */
  ghost predicate IsRefText(c: Config, names: iset<string>, rank: string -> nat, name: string, text: Lookup<string>)
    requires Acyclic(c, names, rank) && name in names
  {
    if StandsFor(c, names, rank, name, Missing) then text == Found("")
    else
      match Read(c, names, rank, name)
      case Missing => text == Missing
      case Broken => text == Broken
      case Found(v) => text == Found(v.text)
  }

  /** A literal is its text; a reference to a setting that can be read is that setting's text, to
      one that cannot be found nothing, and to one that is found but cannot be read an error. */
  ghost predicate IsTextOf(c: Config, names: iset<string>, rank: string -> nat, part: Part, text: Lookup<string>)
    requires Acyclic(c, names, rank) && (part.Ref? ==> part.name in names)
  {
    match part
    case Literal(t) => text == Found(t)
    case Ref(name) => IsRefText(c, names, rank, name, text)
  }

  /** The texts joined, if all are there, or the first failure. */
  function Join(texts: seq<Lookup<string>>): Lookup<string> {
    if texts == [] then Found("")
    else
      var init, last := Join(texts[..|texts| - 1]), texts[|texts| - 1];
      if !init.Found? then init else if !last.Found? then last else Found(init.value + last.value)
  }

  /** So a join fails as the first text that is not there, and else has all of them in order. */
  lemma {:induction false} JoinIs(texts: seq<Lookup<string>>)
    ensures (forall i | 0 <= i < |texts| :: texts[i].Found?) <==> Join(texts).Found?
    ensures forall k | 0 <= k < |texts| && !texts[k].Found? && (forall j | 0 <= j < k :: texts[j].Found?) ::
              Join(texts) == texts[k]
    decreases |texts|
  {
    if texts == [] {
    } else {
      var init := texts[..|texts| - 1];
      JoinIs(init);
      assert forall i | 0 <= i < |init| :: texts[i] == init[i];
    }
  }

  lemma {:induction false} JoinCons(first: Lookup<string>, rest: seq<Lookup<string>>)
    ensures Join([first] + rest) == Both(first, Join(rest))
    decreases |rest|
  {
    if rest == [] {
      assert [first] + rest == [first] && [first][..0] == [];
      assert first.Found? ==> first.value + "" == first.value && "" + first.value == first.value;
    } else {
      var init, last := rest[..|rest| - 1], rest[|rest| - 1];
      JoinCons(first, init);
      assert ([first] + rest)[..|rest|] == [first] + init;
      if first.Found? && Join(init).Found? && last.Found? {
        assert (first.value + Join(init).value) + last.value == first.value + (Join(init).value + last.value);
      }
    }
  }

  /** Rendering resolves every part on its own and joins the texts in order; it fails exactly when
      some part cannot be resolved, as the first such part does. */
  lemma {:induction false} RenderJoinsParts(c: Config, names: iset<string>, rank: string -> nat, bound: nat,
                                            parts: seq<Part>)
    returns (texts: seq<Lookup<string>>)
    requires Acyclic(c, names, rank)
    requires forall p | p in parts && p.Ref? :: p.name in names && rank(p.name) < bound
    ensures |texts| == |parts| && forall i | 0 <= i < |parts| :: IsTextOf(c, names, rank, parts[i], texts[i])
    ensures Render(c, names, rank, bound, parts) == Join(texts)
    decreases |parts|
  {
    hide Acyclic, RefText, Join, IsRefText;
    if parts == [] {
      texts := [];
      NothingToJoin(texts);
    } else {
      var rest := RenderJoinsParts(c, names, rank, bound, parts[1..]);
      assert parts[0] in parts;
      var first := match parts[0] case Literal(t) => Found(t) case Ref(name) => RefText(c, names, rank, name);
      if parts[0].Ref? {
        RefTextIs(c, names, rank, parts[0].name);
      }
      texts := [first] + rest;
      JoinCons(first, rest);
      forall i | 0 <= i < |parts| ensures IsTextOf(c, names, rank, parts[i], texts[i]) {
        if i > 0 {
          assert parts[i] == parts[1..][i - 1] && texts[i] == rest[i - 1];
        }
      }
    }
  }

  lemma RefTextIs(c: Config, names: iset<string>, rank: string -> nat, name: string)
    requires Acyclic(c, names, rank) && name in names
    ensures IsRefText(c, names, rank, name, RefText(c, names, rank, name))
  {
    hide Acyclic, Read, Get;
    GetIs(c, names, rank, name);
  }

  /** Reading a setting: what the name stands for is filtered by its filter, if it has one, and then
      rendered when it is text. A name that stands for nothing and a failing filter are missing, and a
      broken search is broken. */
  ghost predicate ReadsAs(c: Config, names: iset<string>, rank: string -> nat, name: string, got: Lookup<Setting>,
                          texts: seq<Lookup<string>>, r: Lookup<Value>)
    requires Acyclic(c, names, rank) && name in names
  {
    if !got.Found? then r == if got.Missing? then Missing else Broken
    else
      var filtered := if name in c.filters then c.filters[name](got.value) else Some(got.value);
      if filtered.None? then r == Missing
      else if filtered.value.Plain? then r == Found(Other(filtered.value.text))
      else
        && |texts| == |filtered.value.parts|
        && (forall i | 0 <= i < |texts| ::
             var part := filtered.value.parts[i];
             (part.Ref? ==> part.name in names) && IsTextOf(c, names, rank, part, texts[i]))
        && match Join(texts)
           case Missing => r == Missing
           case Broken => r == Broken
           case Found(text) => r == Found(Rendered(text))
  }

  lemma ReadIs(c: Config, names: iset<string>, rank: string -> nat, name: string)
    returns (got: Lookup<Setting>, texts: seq<Lookup<string>>)
    requires Acyclic(c, names, rank) && name in names
    ensures StandsFor(c, names, rank, name, got)
    ensures ReadsAs(c, names, rank, name, got, texts, Read(c, names, rank, name))
  {
    hide Get, Render, Join, IsTextOf, StandsFor;
    GetIs(c, names, rank, name);
    got := Get(c, names, rank, name);
    texts := [];
    if got.Found? && Filter(c, name, got.value).Some? && Filter(c, name, got.value).value.Template? {
      var parts := Filter(c, name, got.value).value.parts;
      assert LeadsDown(names, rank, name, Refs(Filter(c, name, got.value)));
      assert forall p | p in parts && p.Ref? :: p.name in Refs(Filter(c, name, got.value));
      texts := RenderJoinsParts(c, names, rank, rank(name), parts);
    }
  }

  lemma NothingToJoin(texts: seq<Lookup<string>>)
    requires texts == []
    ensures Join(texts) == Found("")
  {
  }

  // ---- Configurations that agree on what is read ----

  /** Two configurations with one set of constructors and filters that find the same settings
      under every name of both sets. */
  ghost predicate Agree(a: Config, b: Config, names: iset<string>) {
    && a.constructors == b.constructors && a.filters == b.filters
    && forall n | n in names :: Search(a.layers, n) == Search(b.layers, n)
  }

  lemma {:induction false} AgreeingReads(a: Config, na: iset<string>, ra: string -> nat,
                                         b: Config, nb: iset<string>, rb: string -> nat, name: string)
    requires Acyclic(a, na, ra) && Acyclic(b, nb, rb) && name in na && name in nb
    requires Agree(a, b, na * nb)
    ensures Read(a, na, ra, name) == Read(b, nb, rb, name)
    ensures Get(a, na, ra, name) == Get(b, nb, rb, name)
    decreases ra(name), 3
  {
    assert NameAcyclic(a, na, ra, name) && NameAcyclic(b, nb, rb, name);
    assert name in na * nb;
    if Search(a.layers, name).Missing? && name in a.constructors {
      var needs := a.constructors[name].needs;
      assert forall n | n in needs :: n in (set k | k in needs);
      AgreeingReadAll(a, na, ra, ra(name), b, nb, rb, rb(name), needs);
    }
    var s := Get(a, na, ra, name);
    if s.Found? && Filter(a, name, s.value).Some? && Filter(a, name, s.value).value.Template? {
      var parts := Filter(a, name, s.value).value.parts;
      assert forall p | p in parts && p.Ref? :: p.name in Refs(Filter(a, name, s.value));
      AgreeingRender(a, na, ra, ra(name), b, nb, rb, rb(name), parts);
    }
  }

  lemma {:induction false} AgreeingReadAll(a: Config, na: iset<string>, ra: string -> nat, ba: nat,
                                           b: Config, nb: iset<string>, rb: string -> nat, bb: nat, needs: seq<string>)
    requires Acyclic(a, na, ra) && Acyclic(b, nb, rb) && Agree(a, b, na * nb)
    requires forall n | n in needs :: n in na && ra(n) < ba && n in nb && rb(n) < bb
    ensures ReadAll(a, na, ra, ba, needs) == ReadAll(b, nb, rb, bb, needs)
    decreases ba, 1, |needs|
  {
    if needs == [] {
    } else {
      AgreeingReads(a, na, ra, b, nb, rb, needs[0]);
      AgreeingReadAll(a, na, ra, ba, b, nb, rb, bb, needs[1..]);
    }
  }

  lemma {:induction false} AgreeingRender(a: Config, na: iset<string>, ra: string -> nat, ba: nat,
                                          b: Config, nb: iset<string>, rb: string -> nat, bb: nat, parts: seq<Part>)
    requires Acyclic(a, na, ra) && Acyclic(b, nb, rb) && Agree(a, b, na * nb)
    requires forall p | p in parts && p.Ref? :: p.name in na && ra(p.name) < ba && p.name in nb && rb(p.name) < bb
    ensures Render(a, na, ra, ba, parts) == Render(b, nb, rb, bb, parts)
    decreases ba, 1, |parts|
  {
    if parts == [] {
    } else {
      if parts[0].Ref? {
        AgreeingReads(a, na, ra, b, nb, rb, parts[0].name);
      }
      AgreeingRender(a, na, ra, ba, b, nb, rb, bb, parts[1..]);
    }
  }

  /** The value of a setting does not depend on how acyclicity is shown. */
  lemma ReadIsUnique(c: Config, na: iset<string>, ra: string -> nat, nb: iset<string>, rb: string -> nat, name: string)
    requires Acyclic(c, na, ra) && Acyclic(c, nb, rb) && name in na && name in nb
    ensures Read(c, na, ra, name) == Read(c, nb, rb, name)
  {
    AgreeingReads(c, na, ra, c, nb, rb, name);
  }

  /** Agreeing on a closed set of names carries its acyclicity over. */
  lemma AgreeingIsAcyclic(a: Config, b: Config, names: iset<string>, rank: string -> nat)
    requires Acyclic(a, names, rank) && Agree(a, b, names)
    ensures Acyclic(b, names, rank)
  {
    forall name | name in names ensures NameAcyclic(b, names, rank, name) {
      assert NameAcyclic(a, names, rank, name);
    }
  }

  // ---- Flattening ----

  /** One dictionary with the settings of the layers that can be reached, higher priority winning. */
  function Flatten(layers: seq<Layer>): map<string, Setting> {
    if layers == [] then map[]
    else
      match layers[0]
      case Unsearchable => Flatten(layers[1..])
      case Indexed => map[]
      case Settings(m) => Flatten(layers[1..]) + m
  }

  /** The first list or text among the layers, if there is one. */
  function Stop(layers: seq<Layer>): seq<Layer> {
    if Indexed in layers then [Indexed] else []
  }

  /** The one dictionary, and below it what stops the search. */
  function Flattened(c: Config): Config {
    c.(layers := [Settings(Flatten(c.layers))] + Stop(c.layers))
  }

  lemma {:induction false} FlattenFinds(layers: seq<Layer>, name: string)
    ensures Search([Settings(Flatten(layers))] + Stop(layers), name) == Search(layers, name)
    ensures Search(layers, name).Found? <==> name in Flatten(layers)
    ensures Search(layers, name).Broken? <==> name !in Flatten(layers) && Indexed in layers
    decreases |layers|
  {
    var flat := [Settings(Flatten(layers))] + Stop(layers);
    assert flat[1..] == Stop(layers);
    assert [Indexed][1..] == [];
    if layers == [] {
    } else {
      assert layers == [layers[0]] + layers[1..];
      var rest := [Settings(Flatten(layers[1..]))] + Stop(layers[1..]);
      assert rest[1..] == Stop(layers[1..]);
      FlattenFinds(layers[1..], name);
    }
  }

  /** Without lists and texts among the layers, the flattened configuration is the one dictionary. */
  lemma OneDictionary(c: Config)
    requires Indexed !in c.layers
    ensures Flattened(c).layers == [Settings(Flatten(c.layers))]
  {
  }

  /** Reading a setting from the layers is reading it from the one flattened dictionary, with what
      stops the search below it. */
  lemma FlatteningRefines(c: Config, names: iset<string>, rank: string -> nat, name: string)
    requires Acyclic(c, names, rank) && name in names
    ensures Acyclic(Flattened(c), names, rank)
    ensures Read(c, names, rank, name) == Read(Flattened(c), names, rank, name)
  {
    forall n ensures Search(Flattened(c).layers, n) == Search(c.layers, n) {
      FlattenFinds(c.layers, n);
    }
    AgreeingIsAcyclic(c, Flattened(c), names, rank);
    AgreeingReads(c, names, rank, Flattened(c), names, rank, name);
  }

  // ---- Entries that cannot be seen ----

  predicate Hides(layer: Layer, name: string) {
    layer.Indexed? || (layer.Settings? && name in layer.settings)
  }

  /** A layer of higher priority has the name, or stops the search. */
  predicate Shadowed(layers: seq<Layer>, i: nat, name: string)
    requires i <= |layers|
  {
    exists j | 0 <= j < i :: Hides(layers[j], name)
  }

  /** Changing one entry of one layer: a new setting, or none. */
  function Changed(c: Config, i: nat, name: string, setting: Option<Setting>): Config
    requires i < |c.layers| && c.layers[i].Settings?
  {
    var settings := c.layers[i].settings;
    var now := match setting case None => settings - {name} case Some(s) => settings[name := s];
    c.(layers := c.layers[i := Settings(now)])
  }

  lemma {:induction false} SearchAfterChange(layers: seq<Layer>, i: nat, changed: Layer, name: string, n: string)
    requires i < |layers| && layers[i].Settings? && changed.Settings?
    requires forall k | k != name :: (k in layers[i].settings <==> k in changed.settings)
                                     && (k in changed.settings ==> changed.settings[k] == layers[i].settings[k])
    requires n != name || Shadowed(layers, i, name)
    ensures Search(layers[i := changed], n) == Search(layers, n)
    decreases |layers|
  {
    if i > 0 {
      assert layers[i := changed][1..] == layers[1..][i - 1 := changed];
      if !Hides(layers[0], n) {
        if n == name {
          var j :| 0 <= j < i && Hides(layers[j], name);
          assert Hides(layers[1..][j - 1], name);
        }
        SearchAfterChange(layers[1..], i - 1, changed, name, n);
      }
    } else {
      assert layers[0 := changed][1..] == layers[1..];
    }
  }

  /** Changing, adding or removing an entry that is shadowed by a higher layer, or that cannot be
      reached from a setting, never changes what that setting reads as. */
  lemma UnseenEntriesDoNotMatter(c: Config, names: iset<string>, rank: string -> nat, name: string,
                                 i: nat, entry: string, setting: Option<Setting>)
    requires Acyclic(c, names, rank) && name in names
    requires i < |c.layers| && c.layers[i].Settings?
    requires entry !in names || Shadowed(c.layers, i, entry)
    ensures Acyclic(Changed(c, i, entry, setting), names, rank)
    ensures Read(Changed(c, i, entry, setting), names, rank, name) == Read(c, names, rank, name)
  {
    var d := Changed(c, i, entry, setting);
    forall n | n in names ensures Search(d.layers, n) == Search(c.layers, n) {
      SearchAfterChange(c.layers, i, d.layers[i], entry, n);
    }
    AgreeingIsAcyclic(c, d, names, rank);
    AgreeingReads(d, names, rank, c, names, rank, name);
  }
}
