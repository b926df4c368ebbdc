/** Folding configuration layers, lowest precedence first, into one effective configuration
    (gat-core/src/config.rs, gat-core/src/settings.rs). */
module Layering {
  import opened Text

  type Name = string

  /** An explicit empty list is a value like any other; only absence inherits. */
  type Value = seq<string>

  /** A section of named definitions with a pointer to the default one. */
  datatype Named = Named(default: Option<Name>, byName: map<Name, Value>)

  /** One layer: single settings by key, and definitions by name. */
  datatype Layer = Layer(settings: map<Name, Value>, remotes: Named, selections: Named,
                         mounts: map<Name, Value>, routes: map<Name, Value>)

  const NOTHING := Named(None, map[])

  const DEFAULT := Layer(map[], NOTHING, NOTHING, map[], map[])

  function MergedNamed(low: Named, high: Named): Named
  {
    Named(if high.default.Some? then high.default else low.default, low.byName + high.byName)
  }

  function Merged(low: Layer, high: Layer): Layer
  {
    Layer(low.settings + high.settings, MergedNamed(low.remotes, high.remotes),
          MergedNamed(low.selections, high.selections), low.mounts + high.mounts, low.routes + high.routes)
  }

  function Folded(layers: seq<Layer>): Layer
  {
    if layers == [] then DEFAULT else Merged(Folded(layers[..|layers| - 1]), layers[|layers| - 1])
  }

  /** A configuration, changed in place as layers are folded in. */
  class Config {
    var settings: map<Name, Value>
    var remotes: Named
    var selections: Named
    var mounts: map<Name, Value>
    var routes: map<Name, Value>

    ghost function Contents(): Layer
      reads this
    {
      Layer(settings, remotes, selections, mounts, routes)
    }

    constructor (layer: Layer)
      ensures Contents() == layer
    {
      settings, remotes, selections := layer.settings, layer.remotes, layer.selections;
      mounts, routes := layer.mounts, layer.routes;
    }

    /** Takes every setting out of `source` and puts it here. */
    method MergeSettings(source: Config)
      requires source != this
      modifies `settings, source`settings
      ensures settings == old(settings + source.settings) && source.settings == map[]
    {
      while source.settings != map[]
        invariant settings + source.settings == old(settings + source.settings)
        decreases source.settings.Keys
      {
        var key :| key in source.settings;
        TakeOne(settings, source.settings, key);
        settings := settings[key := source.settings[key]];
        source.settings := source.settings - {key};
      }
      assert settings + map[] == settings;
    }

    method MergedWith(over: Config)
      requires over != this
      modifies this, over
      ensures Contents() == Merged(old(Contents()), old(over.Contents()))
    {
      MergeSettings(over);
      remotes := Named(if over.remotes.default.Some? then over.remotes.default else remotes.default,
                       remotes.byName + over.remotes.byName);
      selections := selections.(byName := selections.byName + over.selections.byName);
      selections := selections.(
        default := if over.selections.default.Some? then over.selections.default else selections.default);
      mounts := mounts + over.mounts;
      routes := routes + over.routes;
    }
  }

  lemma {:induction false} TakeOne(a: map<Name, Value>, b: map<Name, Value>, key: Name)
    requires key in b
    ensures a[key := b[key]] + (b - {key}) == a + b
    ensures (b - {key}).Keys < b.Keys
  {
    var moved := a[key := b[key]] + (b - {key});
    assert moved.Keys == (a + b).Keys;
    assert forall k :: k in moved ==> moved[k] == (a + b)[k];
  }

  method MergeLayers(layers: seq<Layer>) returns (config: Config)
    ensures fresh(config) && config.Contents() == Folded(layers)
  {
    config := new Config(DEFAULT);
    for i := 0 to |layers|
      invariant fresh(config) && config.Contents() == Folded(layers[..i])
    {
      assert layers[..i + 1][..i] == layers[..i];
      var over := new Config(layers[i]);
      config.MergedWith(over);
    }
    assert layers[..|layers|] == layers;
  }

  // ------------------------------------------------------------ the algebra

  lemma {:induction false} MergeIdentity(layer: Layer)
    ensures Merged(DEFAULT, layer) == layer && Merged(layer, DEFAULT) == layer
  {
    assert map[] + layer.settings == layer.settings && layer.settings + map[] == layer.settings;
    assert map[] + layer.mounts == layer.mounts && layer.mounts + map[] == layer.mounts;
    assert map[] + layer.routes == layer.routes && layer.routes + map[] == layer.routes;
    assert MergedNamed(NOTHING, layer.remotes) == layer.remotes == MergedNamed(layer.remotes, NOTHING) by {
      NamedIdentity(layer.remotes);
    }
    NamedIdentity(layer.selections);
  }

  lemma {:induction false} NamedIdentity(named: Named)
    ensures MergedNamed(NOTHING, named) == named && MergedNamed(named, NOTHING) == named
  {
    assert map[] + named.byName == named.byName && named.byName + map[] == named.byName;
  }

  lemma {:induction false} MergeAssociative(a: Layer, b: Layer, c: Layer)
    ensures Merged(Merged(a, b), c) == Merged(a, Merged(b, c))
  {
    UnionAssociative(a.settings, b.settings, c.settings);
    UnionAssociative(a.mounts, b.mounts, c.mounts);
    UnionAssociative(a.routes, b.routes, c.routes);
    UnionAssociative(a.remotes.byName, b.remotes.byName, c.remotes.byName);
    UnionAssociative(a.selections.byName, b.selections.byName, c.selections.byName);
  }

  lemma {:induction false} UnionAssociative<K, V>(a: map<K, V>, b: map<K, V>, c: map<K, V>)
    ensures (a + b) + c == a + (b + c)
  {
  }

  /** Layers can be folded in groups. */
  lemma {:induction false} FoldInGroups(a: seq<Layer>, b: seq<Layer>)
    ensures Folded(a + b) == Merged(Folded(a), Folded(b))
  {
    hide Merged;
    if b == [] {
      assert a + b == a;
      MergeIdentity(Folded(a));
    } else {
      var init, last := b[..|b| - 1], b[|b| - 1];
      assert (a + b)[..|a + b| - 1] == a + init;
      FoldInGroups(a, init);
      MergeAssociative(Folded(a), Folded(init), last);
    }
  }

  // ------------------------------------------------- the highest layer wins

  /** The last of `choices` that is present. */
  function Highest<T>(choices: seq<Option<T>>): (r: Option<T>)
    ensures r.None? <==> forall i :: 0 <= i < |choices| ==> choices[i].None?
    ensures r.Some? ==>
              exists i :: 0 <= i < |choices| && choices[i] == r && forall j :: i < j < |choices| ==> choices[j].None?
  {
    if choices == [] then None
    else if choices[|choices| - 1].Some? then choices[|choices| - 1]
    else
      var init := choices[..|choices| - 1];
      assert choices == init + [choices[|choices| - 1]];
      assert forall i :: 0 <= i < |init| ==> init[i] == choices[i];
      Highest(init)
  }

  function Get<V>(m: map<Name, V>, key: Name): Option<V>
  {
    if key in m then Some(m[key]) else None
  }

  datatype Section = Settings | Remotes | Selections | Mounts | Routes

  /** What one layer says of a key or name in a section. */
  function Says(layer: Layer, section: Section, name: Name): Option<Value>
  {
    match section
    case Settings => Get(layer.settings, name)
    case Remotes => Get(layer.remotes.byName, name)
    case Selections => Get(layer.selections.byName, name)
    case Mounts => Get(layer.mounts, name)
    case Routes => Get(layer.routes, name)
  }

  function AllSay(layers: seq<Layer>, section: Section, name: Name): (r: seq<Option<Value>>)
    ensures |r| == |layers|
  {
    seq(|layers|, i requires 0 <= i < |layers| => Says(layers[i], section, name))
  }

  function Defaults(layers: seq<Layer>, remotes: bool): (r: seq<Option<Name>>)
    ensures |r| == |layers|
  {
    seq(|layers|, i requires 0 <= i < |layers| =>
      if remotes then layers[i].remotes.default else layers[i].selections.default)
  }

  /** Every setting and every named definition is taken whole from the highest layer that has
      it, and each default pointer from the highest layer that sets it. */
  lemma {:induction false} HighestLayerWins(layers: seq<Layer>, section: Section, name: Name)
    ensures Says(Folded(layers), section, name) == Highest(AllSay(layers, section, name))
    ensures Folded(layers).remotes.default == Highest(Defaults(layers, true))
    ensures Folded(layers).selections.default == Highest(Defaults(layers, false))
  {
    if layers == [] {
      DefaultSaysNothing(section, name);
    } else {
      var init, last := layers[..|layers| - 1], layers[|layers| - 1];
      FoldedSnoc(init, last);
      hide *;
      assert layers == init + [last];
      HighestLayerWins(init, section, name);
      SaysMerged(Folded(init), last, section, name);
      AllSaySnoc(init, last, section, name);
      HighestSnoc(AllSay(init, section, name), Says(last, section, name));
      HighestSnoc(Defaults(init, true), last.remotes.default);
      HighestSnoc(Defaults(init, false), last.selections.default);
    }
  }

  lemma {:induction false} FoldedSnoc(layers: seq<Layer>, last: Layer)
    ensures Folded(layers + [last]) == Merged(Folded(layers), last)
  {
    assert (layers + [last])[..|layers|] == layers;
  }

  lemma {:induction false} AllSaySnoc(layers: seq<Layer>, last: Layer, section: Section, name: Name)
    ensures AllSay(layers + [last], section, name) == AllSay(layers, section, name) + [Says(last, section, name)]
    ensures Defaults(layers + [last], true) == Defaults(layers, true) + [last.remotes.default]
    ensures Defaults(layers + [last], false) == Defaults(layers, false) + [last.selections.default]
  {
    hide Says;
  }

  lemma {:induction false} DefaultSaysNothing(section: Section, name: Name)
    ensures Says(DEFAULT, section, name) == None
  {
  }

  lemma {:induction false} SaysMerged(low: Layer, high: Layer, section: Section, name: Name)
    ensures Says(Merged(low, high), section, name) ==
            if Says(high, section, name).Some? then Says(high, section, name) else Says(low, section, name)
    ensures Merged(low, high).remotes.default ==
            if high.remotes.default.Some? then high.remotes.default else low.remotes.default
    ensures Merged(low, high).selections.default ==
            if high.selections.default.Some? then high.selections.default else low.selections.default
  {
  }

  lemma {:induction false} HighestSnoc<T>(choices: seq<Option<T>>, last: Option<T>)
    ensures Highest(choices + [last]) == if last.Some? then last else Highest(choices)
  {
    assert (choices + [last])[..|choices|] == choices;
  }
}
