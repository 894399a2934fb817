/**
 Inheritance of device collection settings: deep merge, parent chains, provenance and the choice of
 a version template (net/devices/collection_profiles.py:62-96, 266-321).
 */
module CollectionTemplates {
  import opened Outcomes

  /** A JSON value as merging sees it: an object, or anything else. */
  datatype Tree = Leaf(value: string) | Node(fields: map<string, Tree>)

  // ---------------------------------------------------------------------------------------
  // Merging
  // ---------------------------------------------------------------------------------------

  function Merge(base: Tree, override: Tree): (merged: Tree)
    requires base.Node? && override.Node?
    ensures merged.Node?
    decreases override
  {
    Node(map k | k in base.fields.Keys + override.fields.Keys ::
      if k !in override.fields then base.fields[k]
      else if k in base.fields && base.fields[k].Node? && override.fields[k].Node?
      then Merge(base.fields[k], override.fields[k])
      else override.fields[k])
  }

  ghost function MergeKey(base: Tree, override: Tree, k: string): (value: Tree)
    requires base.Node? && override.Node? && k in base.fields.Keys + override.fields.Keys
  {
    if k !in override.fields then base.fields[k]
    else if k in base.fields && base.fields[k].Node? && override.fields[k].Node?
    then Merge(base.fields[k], override.fields[k])
    else override.fields[k]
  }

  lemma MergedFields(base: Tree, override: Tree)
    requires base.Node? && override.Node?
    ensures Merge(base, override).fields.Keys == base.fields.Keys + override.fields.Keys
    ensures forall k :: k in base.fields.Keys + override.fields.Keys ==>
              Merge(base, override).fields[k] == MergeKey(base, override, k)
  {
  }

  /** The loop over the override's items, updating a copy of the base. */
  method MergeInto(base: Tree, override: Tree) returns (result: Tree)
    requires base.Node? && override.Node?
    ensures result == Merge(base, override)
    decreases override
  {
    var fields := base.fields;
    var rest := override.fields.Keys;
    while rest != {}
      invariant rest <= override.fields.Keys
      invariant fields.Keys == base.fields.Keys + (override.fields.Keys - rest)
      invariant forall k :: k in fields.Keys ==>
                  fields[k] == if k in rest then base.fields[k] else MergeKey(base, override, k)
      decreases rest
    {
      var key :| key in rest;
      var value := override.fields[key];
      if value.Node? && key in fields && fields[key].Node? {
        var child := MergeInto(fields[key], value);
        fields := fields[key := child];
      } else {
        fields := fields[key := value];
      }
      rest := rest - {key};
    }
    MergedFields(base, override);
    assert fields == Merge(base, override).fields;
    result := Node(fields);
  }

  /** Everything the first tree defines is settled by the second: merging it underneath has no effect. */
  predicate Subsumed(a: Tree, b: Tree)
    requires a.Node? && b.Node?
    decreases b
  {
    forall k :: k in a.fields ==>
      k in b.fields && (a.fields[k].Node? && b.fields[k].Node? ==> Subsumed(a.fields[k], b.fields[k]))
  }

  lemma {:induction false} SubsumedExactly(a: Tree, b: Tree)
    requires a.Node? && b.Node?
    ensures Merge(a, b) == b <==> Subsumed(a, b)
    decreases b
  {
    var m := Merge(a, b);
    MergedFields(a, b);
    forall k | k in a.fields && k in b.fields && a.fields[k].Node? && b.fields[k].Node?
      ensures Merge(a.fields[k], b.fields[k]) == b.fields[k] <==> Subsumed(a.fields[k], b.fields[k])
    {
      SubsumedExactly(a.fields[k], b.fields[k]);
    }
    if Subsumed(a, b) {
      assert m.fields.Keys == b.fields.Keys;
      forall k | k in m.fields ensures m.fields[k] == b.fields[k] {
        assert m.fields[k] == MergeKey(a, b, k);
      }
      assert m.fields == b.fields;
    }
    if m == b {
      forall k | k in a.fields
        ensures k in b.fields && (a.fields[k].Node? && b.fields[k].Node? ==> Subsumed(a.fields[k], b.fields[k]))
      {
        assert k in m.fields && m.fields[k] == MergeKey(a, b, k);
      }
    }
  }

  /**
   The shapes under which three layers may be regrouped: wherever the middle layer replaces an object by
   a plain value that the last one turns into an object again, the last one must settle everything the
   first one said there.
   */
  predicate Regroups(a: Tree, b: Tree, c: Tree)
    requires a.Node? && b.Node? && c.Node?
    decreases c
  {
    forall k :: k in a.fields && k in b.fields && k in c.fields && a.fields[k].Node? && c.fields[k].Node? ==>
      if b.fields[k].Node? then Regroups(a.fields[k], b.fields[k], c.fields[k])
      else Subsumed(a.fields[k], c.fields[k])
  }

  predicate AllNodes(a: Tree, b: Tree, c: Tree, k: string)
    requires a.Node? && b.Node? && c.Node?
  {
    && k in a.fields && k in b.fields && k in c.fields
    && a.fields[k].Node? && b.fields[k].Node? && c.fields[k].Node?
  }

  lemma RegroupsKey(a: Tree, b: Tree, c: Tree, k: string)
    requires a.Node? && b.Node? && c.Node? && k in a.fields.Keys + b.fields.Keys + c.fields.Keys
    requires AllNodes(a, b, c, k) ==>
               (Merge(Merge(a.fields[k], b.fields[k]), c.fields[k])
                   == Merge(a.fields[k], Merge(b.fields[k], c.fields[k]))
                <==> Regroups(a.fields[k], b.fields[k], c.fields[k]))
    ensures MergeKey(Merge(a, b), c, k) == MergeKey(a, Merge(b, c), k) <==>
            (k in a.fields && k in b.fields && k in c.fields && a.fields[k].Node? && c.fields[k].Node? ==>
               if b.fields[k].Node? then Regroups(a.fields[k], b.fields[k], c.fields[k])
               else Subsumed(a.fields[k], c.fields[k]))
  {
    MergedFields(a, b);
    MergedFields(b, c);
    assert k in a.fields.Keys + b.fields.Keys ==> Merge(a, b).fields[k] == MergeKey(a, b, k);
    assert k in b.fields.Keys + c.fields.Keys ==> Merge(b, c).fields[k] == MergeKey(b, c, k);
    if k in a.fields && k in c.fields && a.fields[k].Node? && c.fields[k].Node? {
      SubsumedExactly(a.fields[k], c.fields[k]);
    }
  }

  /** Deep merge is associative exactly on the shapes above; in particular on layers of equal shape. */
  lemma {:induction false} AssociativeExactly(a: Tree, b: Tree, c: Tree)
    requires a.Node? && b.Node? && c.Node?
    ensures Merge(Merge(a, b), c) == Merge(a, Merge(b, c)) <==> Regroups(a, b, c)
    decreases c
  {
    var left, right := Merge(Merge(a, b), c), Merge(a, Merge(b, c));
    MergedFields(a, b);
    MergedFields(b, c);
    MergedFields(Merge(a, b), c);
    MergedFields(a, Merge(b, c));
    assert left.fields.Keys == right.fields.Keys == a.fields.Keys + b.fields.Keys + c.fields.Keys;
    forall k | k in left.fields
      ensures left.fields[k] == right.fields[k] <==>
              (k in a.fields && k in b.fields && k in c.fields && a.fields[k].Node? && c.fields[k].Node? ==>
                 if b.fields[k].Node? then Regroups(a.fields[k], b.fields[k], c.fields[k])
                 else Subsumed(a.fields[k], c.fields[k]))
    {
      if AllNodes(a, b, c, k) {
        AssociativeExactly(a.fields[k], b.fields[k], c.fields[k]);
      }
      RegroupsKey(a, b, c, k);
      assert left.fields[k] == MergeKey(Merge(a, b), c, k) && right.fields[k] == MergeKey(a, Merge(b, c), k);
    }
    if left == right {
      assert forall k :: k in left.fields ==> left.fields[k] == right.fields[k];
    }
    if Regroups(a, b, c) {
      assert left.fields == right.fields;
    }
  }

  /** Object, plain value, object: the grouping of the merges decides whether the first object survives. */
  lemma MergeIsNotAssociative() returns (a: Tree, b: Tree, c: Tree)
    ensures a.Node? && b.Node? && c.Node? && Merge(Merge(a, b), c) != Merge(a, Merge(b, c))
  {
    var inner := Node(map["p" := Leaf("1")]);
    a := Node(map["x" := inner]);
    b := Node(map["x" := Leaf("2")]);
    c := Node(map["x" := Node(map["q" := Leaf("3")])]);
    assert "x" in a.fields && "x" in b.fields && "x" in c.fields;
    assert "p" in inner.fields;
    assert !Subsumed(a.fields["x"], c.fields["x"]);
    AssociativeExactly(a, b, c);
  }

  // ---------------------------------------------------------------------------------------
  // Nearest definer
  // ---------------------------------------------------------------------------------------

  ghost function Lookup(t: Tree, path: seq<string>): (found: Option<Tree>) {
    if path == [] then Some(t)
    else if t.Node? && path[0] in t.fields then Lookup(t.fields[path[0]], path[1..])
    else None
  }

  /** A plain value stands on the way to `path`: whatever was below it is gone. */
  ghost predicate Blocked(t: Tree, path: seq<string>) {
    path != [] && (t.Leaf? || (path[0] in t.fields && Blocked(t.fields[path[0]], path[1..])))
  }

  lemma {:induction false} LookupMerged(a: Tree, b: Tree, path: seq<string>, v: string)
    requires a.Node? && b.Node? && path != []
    ensures Lookup(Merge(a, b), path) == Some(Leaf(v)) <==>
            || Lookup(b, path) == Some(Leaf(v))
            || (Lookup(b, path).None? && !Blocked(b, path) && Lookup(a, path) == Some(Leaf(v)))
    decreases path
  {
    var k, rest := path[0], path[1..];
    var m := Merge(a, b);
    MergedFields(a, b);
    assert k in m.fields ==> m.fields[k] == MergeKey(a, b, k);
    if k in b.fields && k in a.fields && a.fields[k].Node? && b.fields[k].Node? {
      if rest != [] {
        LookupMerged(a.fields[k], b.fields[k], rest, v);
      }
    } else if k in b.fields {
      if rest != [] && k in a.fields && Lookup(a.fields[k], rest).Some? {
        assert a.fields[k].Node?;
      }
    }
  }

  /** One template, or the device's own overrides. */
  datatype Layer = Layer(name: string, settings: Tree)

  ghost predicate Objects(layers: seq<Layer>) {
    forall i :: 0 <= i < |layers| ==> layers[i].settings.Node?
  }

  /** Root first, each layer merged over the ones before it. */
  ghost function Resolved(layers: seq<Layer>): (settings: Tree)
    requires Objects(layers)
    ensures settings.Node?
  {
    if layers == [] then Node(map[])
    else Merge(Resolved(layers[..|layers| - 1]), layers[|layers| - 1].settings)
  }

  /** Layer `i` gives `path` the value `v`, and no later layer says anything about it. */
  ghost predicate NearestDefiner(layers: seq<Layer>, path: seq<string>, v: string, i: nat) {
    && i < |layers| && Lookup(layers[i].settings, path) == Some(Leaf(v))
    && forall j :: i < j < |layers| ==> Lookup(layers[j].settings, path).None? && !Blocked(layers[j].settings, path)
  }

  /** The effective value at a leaf path is the one of the most derived layer that speaks about the path. */
  lemma {:induction false} NearestDefinerWins(layers: seq<Layer>, path: seq<string>, v: string)
    requires Objects(layers) && path != []
    ensures Lookup(Resolved(layers), path) == Some(Leaf(v)) <==> exists i: nat :: NearestDefiner(layers, path, v, i)
  {
    if layers != [] {
      var last := |layers| - 1;
      var front := layers[..last];
      NearestDefinerWins(front, path, v);
      LookupMerged(Resolved(front), layers[last].settings, path, v);
      if Lookup(layers[last].settings, path) == Some(Leaf(v)) {
        assert NearestDefiner(layers, path, v, last);
      }
      if i: nat :| NearestDefiner(front, path, v, i) {
        assert Lookup(layers[last].settings, path).None? && !Blocked(layers[last].settings, path)
               ==> NearestDefiner(layers, path, v, i);
      }
      if i: nat :| NearestDefiner(layers, path, v, i) {
        assert i < last ==> NearestDefiner(front, path, v, i);
      }
    }
  }

  // ---------------------------------------------------------------------------------------
  // Provenance
  // ---------------------------------------------------------------------------------------

  /** The layer has an object under some section with some key, and `source` is "section.key". */
  ghost predicate Defines(t: Tree, source: string) {
    exists section, key :: HasRule(t, section, key) && source == section + "." + key
  }

  ghost predicate HasRule(t: Tree, section: string, key: string) {
    t.Node? && section in t.fields && t.fields[section].Node? && key in t.fields[section].fields
  }

  /** A name has a source exactly if some layer defines it, and then it is the last such layer. */
  ghost predicate IsSource(sources: map<string, string>, layers: seq<Layer>, s: string) {
    if s in sources then exists i: nat :: LastDefiner(layers, s, i) && sources[s] == layers[i].name
    else forall i :: 0 <= i < |layers| ==> !Defines(layers[i].settings, s)
  }

  /** `_rule_sources` after the layers, root first. */
  ghost predicate IsSources(sources: map<string, string>, layers: seq<Layer>) {
    forall s :: IsSource(sources, layers, s)
  }

  ghost predicate LastDefiner(layers: seq<Layer>, s: string, i: nat) {
    i < |layers| && Defines(layers[i].settings, s) && forall j :: i < j < |layers| ==> !Defines(layers[j].settings, s)
  }

  /** The names one layer writes, section by section. */
  method RulesOf(t: Tree) returns (rules: set<string>)
    requires t.Node?
    ensures forall s :: s in rules <==> Defines(t, s)
  {
    rules := {};
    var sections := t.fields.Keys;
    while sections != {}
      invariant sections <= t.fields.Keys
      invariant forall s :: s in rules <==> exists section, key ::
                  section !in sections && HasRule(t, section, key) && s == section + "." + key
      decreases |sections|
    {
      var section :| section in sections;
      if t.fields[section].Node? {
        var own := set key | key in t.fields[section].fields :: section + "." + key;
        rules := rules + own;
        forall s
          ensures s in rules <==> exists sec, key ::
                    sec !in sections - {section} && HasRule(t, sec, key) && s == sec + "." + key
        {
          if s in own {
            var key :| key in t.fields[section].fields && s == section + "." + key;
            assert section !in sections - {section} && HasRule(t, section, key);
          }
        }
      }
      sections := sections - {section};
    }
  }

  /** The second loop of `template_settings`: later layers overwrite the names of earlier ones. */
  method RuleSources(layers: seq<Layer>) returns (sources: map<string, string>)
    requires Objects(layers)
    ensures IsSources(sources, layers)
  {
    sources := map[];
    for i := 0 to |layers|
      invariant IsSources(sources, layers[..i])
    {
      ghost var before := sources;
      var rules := RulesOf(layers[i].settings);
      sources := sources + map s | s in rules :: layers[i].name;
      SourcesStep(before, layers[..i], layers[i], sources);
      assert layers[..i + 1] == layers[..i] + [layers[i]];
    }
    assert layers[..|layers|] == layers;
  }

  lemma SourcesStep(before: map<string, string>, layers: seq<Layer>, layer: Layer, after: map<string, string>)
    requires IsSources(before, layers)
    requires forall s :: s in after <==> s in before || Defines(layer.settings, s)
    requires forall s :: s in after ==> after[s] == if Defines(layer.settings, s) then layer.name else before[s]
    ensures IsSources(after, layers + [layer])
  {
    forall s ensures IsSource(after, layers + [layer], s) {
      SourceStep(before, layers, layer, after, s);
    }
  }

  lemma SourceStep(before: map<string, string>, layers: seq<Layer>, layer: Layer, after: map<string, string>, s: string)
    requires IsSource(before, layers, s)
    requires s in after <==> s in before || Defines(layer.settings, s)
    requires s in after ==> after[s] == if Defines(layer.settings, s) then layer.name else before[s]
    ensures IsSource(after, layers + [layer], s)
  {
    var all := layers + [layer];
    assert all[|layers|] == layer && forall i :: 0 <= i < |layers| ==> all[i] == layers[i];
    if Defines(layer.settings, s) {
      assert LastDefiner(all, s, |layers|);
    } else if s in before {
      var i: nat :| LastDefiner(layers, s, i) && before[s] == layers[i].name;
      assert LastDefiner(all, s, i);
    }
  }

  lemma DotSplits(a: string, b: string, x: string, y: string)
    requires a + "." + x == b + "." + y && '.' !in a && '.' !in b
    ensures a == b && x == y
  {
    var left, right := a + "." + x, b + "." + y;
    assert left[|a|] == '.' && right[|b|] == '.';
    assert forall k :: 0 <= k < |a| ==> left[k] == a[k] && a[k] != '.';
    assert forall k :: 0 <= k < |b| ==> right[k] == b[k] && b[k] != '.';
    assert |a| == |b|;
    assert left[..|a|] == a && right[..|b|] == b;
    assert left[|a| + 1..] == x && right[|b| + 1..] == y;
  }

  /** Section names are plain words; sources join section and key with a dot. */
  ghost predicate DotFree(layers: seq<Layer>) {
    forall i, section :: 0 <= i < |layers| && layers[i].settings.Node? && section in layers[i].settings.fields ==>
        '.' !in section
  }

  /** The source of a rule names the very layer its effective value came from. */
  lemma SourceNamesTheEffectiveLayer(layers: seq<Layer>, sources: map<string, string>, section: string, key: string,
      v: string)
    requires Objects(layers) && DotFree(layers) && IsSources(sources, layers) && '.' !in section
    requires Lookup(Resolved(layers), [section, key]) == Some(Leaf(v))
    ensures section + "." + key in sources
    ensures exists i: nat :: NearestDefiner(layers, [section, key], v, i)
              && sources[section + "." + key] == layers[i].name
  {
    var path, s := [section, key], section + "." + key;
    NearestDefinerWins(layers, path, v);
    var i: nat :| NearestDefiner(layers, path, v, i);
    LookupIsRule(layers[i].settings, section, key);
    assert Defines(layers[i].settings, s);
    forall j | 0 <= j < |layers| && Defines(layers[j].settings, s) ensures HasRule(layers[j].settings, section, key) {
      var sec, k :| HasRule(layers[j].settings, sec, k) && s == sec + "." + k;
      DotSplits(section, sec, key, k);
    }
    forall j | i < j < |layers| ensures !Defines(layers[j].settings, s) {
      LookupIsRule(layers[j].settings, section, key);
    }
    assert IsSource(sources, layers, s);
    var l: nat :| LastDefiner(layers, s, l) && sources[s] == layers[l].name;
    assert l == i;
  }

  lemma LookupIsRule(t: Tree, section: string, key: string)
    ensures Lookup(t, [section, key]).Some? <==> HasRule(t, section, key)
  {
    assert [section, key][1..] == [key] && [key][1..] == [];
    assert HasRule(t, section, key) ==> Lookup(t.fields[section], [key]) == Lookup(t.fields[section].fields[key], []);
  }

  // ---------------------------------------------------------------------------------------
  // Parent chains
  // ---------------------------------------------------------------------------------------

  datatype Template = Template(
    pk: nat, parent: Option<nat>, name: string, settings: Tree,
    vendor: string, subtype: string, versionMatch: string, enabled: bool)

  function Parent(t: Template, available: map<nat, Template>): Option<Template> {
    if t.parent.Some? && t.parent.value in available then Some(available[t.parent.value]) else None
  }

  /** The n-th template on the way up from `leaf`. */
  ghost function Walk(leaf: Option<Template>, available: map<nat, Template>, n: nat): (t: Option<Template>) {
    if n == 0 then leaf
    else
      match Walk(leaf, available, n - 1)
      case None => None
      case Some(t) => Parent(t, available)
  }

  /** The next template on the way up is the stored one that the parent field names, if there is one. */
  lemma WalkReads(leaf: Option<Template>, available: map<nat, Template>, n: nat)
    ensures Walk(leaf, available, 0) == leaf
    ensures Walk(leaf, available, n + 1).Some? <==>
              && Walk(leaf, available, n).Some? && Walk(leaf, available, n).value.parent.Some?
              && Walk(leaf, available, n).value.parent.value in available
    ensures Walk(leaf, available, n + 1).Some? ==>
              Walk(leaf, available, n + 1).value == available[Walk(leaf, available, n).value.parent.value]
  {
  }

  ghost predicate Cycles(leaf: Option<Template>, available: map<nat, Template>) {
    exists i, j :: 0 <= i < j && Repeats(leaf, available, i, j)
  }

  ghost predicate Repeats(leaf: Option<Template>, available: map<nat, Template>, i: nat, j: nat) {
    Walk(leaf, available, i).Some? && Walk(leaf, available, j).Some?
    && Walk(leaf, available, i).value.pk == Walk(leaf, available, j).value.pk
  }

  ghost predicate Consistent(leaf: Option<Template>, available: map<nat, Template>) {
    && (forall pk :: pk in available ==> available[pk].pk == pk)
    && (leaf.Some? && leaf.value.pk in available ==> available[leaf.value.pk] == leaf.value)
  }

  ghost predicate IsWalk(leaf: Option<Template>, available: map<nat, Template>, rows: seq<Template>) {
    forall n :: 0 <= n < |rows| ==> Walk(leaf, available, n) == Some(rows[n])
  }

  ghost predicate DistinctPks(rows: seq<Template>) {
    forall m, n :: 0 <= m < n < |rows| ==> rows[m].pk != rows[n].pk
  }

  function Keys(leaf: Option<Template>, available: map<nat, Template>): set<nat> {
    available.Keys + if leaf.Some? then {leaf.value.pk} else {}
  }

  /** Walks up the parents of `leaf`, if there is one; leaf first. Raises when a template comes round again. */
  method TemplateChain(leaf: Option<Template>, available: map<nat, Template>) returns (chain: Result<seq<Template>, ()>)
    requires forall pk :: pk in available ==> available[pk].pk == pk
    ensures chain.Err? <==> Cycles(leaf, available)
    ensures chain.Ok? ==> forall n: nat ::
              Walk(leaf, available, n) == if n < |chain.value| then Some(chain.value[n]) else None
  {
    var seen: set<nat> := {};
    var rows: seq<Template> := [];
    var template := leaf;
    while template.Some?
      invariant template == Walk(leaf, available, |rows|)
      invariant IsWalk(leaf, available, rows) && DistinctPks(rows)
      invariant forall pk :: pk in seen <==> exists n :: 0 <= n < |rows| && rows[n].pk == pk
      invariant template.Some? ==> template.value.pk in Keys(leaf, available)
      decreases Keys(leaf, available) - seen, template
    {
      var t := template.value;
      if t.pk in seen {
        SeenTwice(leaf, available, rows, t);
        return Err(());
      }
      seen := seen + {t.pk};
      ghost var before := rows;
      rows := rows + [t];
      template := Parent(t, available);
      forall pk ensures pk in seen <==> exists n :: 0 <= n < |rows| && rows[n].pk == pk {
        if exists n :: 0 <= n < |before| && before[n].pk == pk {
          var n :| 0 <= n < |before| && before[n].pk == pk;
          assert rows[n].pk == pk;
        }
        assert rows[|before|] == t;
      }
    }
    WalkEnds(leaf, available, |rows|);
    DistinctWalkHasNoCycle(leaf, available, rows);
    return Ok(rows);
  }

  lemma SeenTwice(leaf: Option<Template>, available: map<nat, Template>, rows: seq<Template>, t: Template)
    requires IsWalk(leaf, available, rows) && Walk(leaf, available, |rows|) == Some(t)
    requires exists n :: 0 <= n < |rows| && rows[n].pk == t.pk
    ensures Cycles(leaf, available)
  {
    var n :| 0 <= n < |rows| && rows[n].pk == t.pk;
    assert Repeats(leaf, available, n, |rows|);
  }

  lemma DistinctWalkHasNoCycle(leaf: Option<Template>, available: map<nat, Template>, rows: seq<Template>)
    requires forall n: nat :: Walk(leaf, available, n) == if n < |rows| then Some(rows[n]) else None
    requires DistinctPks(rows)
    ensures !Cycles(leaf, available)
  {
    forall i, j | 0 <= i < j ensures !Repeats(leaf, available, i, j) {
      assert Walk(leaf, available, j) == if j < |rows| then Some(rows[j]) else None;
      assert Walk(leaf, available, i) == if i < |rows| then Some(rows[i]) else None;
    }
  }

  lemma WalkEnds(leaf: Option<Template>, available: map<nat, Template>, end: nat)
    requires Walk(leaf, available, end).None?
    ensures forall n: nat :: end <= n ==> Walk(leaf, available, n).None?
  {
    forall n: nat | end <= n ensures Walk(leaf, available, n).None? {
      WalkStaysEnded(leaf, available, end, n);
    }
  }

  lemma {:induction false} WalkStaysEnded(leaf: Option<Template>, available: map<nat, Template>, end: nat, n: nat)
    requires Walk(leaf, available, end).None? && end <= n
    ensures Walk(leaf, available, n).None?
  {
    if end < n {
      WalkStaysEnded(leaf, available, end, n - 1);
    }
  }

  /** When the leaf is the stored row, a repeated key means exactly that the walk never ends. */
  lemma CyclesNeverEnd(leaf: Option<Template>, available: map<nat, Template>)
    requires Consistent(leaf, available) && Cycles(leaf, available)
    ensures forall n: nat :: Walk(leaf, available, n).Some?
  {
    var i, j :| 0 <= i < j && Repeats(leaf, available, i, j);
    WalkIsStored(leaf, available, i);
    WalkIsStored(leaf, available, j);
    forall n: nat ensures Walk(leaf, available, n).Some? {
      WalkRepeats(leaf, available, i, j, n);
    }
  }

  lemma {:induction false} WalkIsStored(leaf: Option<Template>, available: map<nat, Template>, n: nat)
    requires Consistent(leaf, available) && Walk(leaf, available, n).Some?
    ensures var t := Walk(leaf, available, n).value;
            Some(t) == leaf || (t.pk in available && available[t.pk] == t)
  {
    if n > 0 {
      WalkIsStored(leaf, available, n - 1);
    }
  }

  lemma {:induction false} WalkRepeats(leaf: Option<Template>, available: map<nat, Template>, i: nat, j: nat, n: nat)
    requires i < j && Walk(leaf, available, i).Some? && Walk(leaf, available, j) == Walk(leaf, available, i)
    ensures Walk(leaf, available, n).Some?
    decreases n
  {
    if n > j {
      SameOnwards(leaf, available, i, j, n - j);
      WalkRepeats(leaf, available, i, j, i + (n - j));
    } else if Walk(leaf, available, n).None? {
      WalkStaysEnded(leaf, available, n, j);
    }
  }

  lemma {:induction false} SameOnwards(leaf: Option<Template>, available: map<nat, Template>, i: nat, j: nat, d: nat)
    requires Walk(leaf, available, j) == Walk(leaf, available, i)
    ensures Walk(leaf, available, j + d) == Walk(leaf, available, i + d)
  {
    if d > 0 {
      SameOnwards(leaf, available, i, j, d - 1);
    }
  }

  // ---------------------------------------------------------------------------------------
  // The settings of a template, and of a device
  // ---------------------------------------------------------------------------------------

  function LayersOf(chain: seq<Template>): (layers: seq<Layer>)
    ensures |layers| == |chain|
    ensures forall i :: 0 <= i < |chain| ==>
              layers[i] == Layer(chain[|chain| - 1 - i].name, chain[|chain| - 1 - i].settings)
  {
    seq(|chain|, i requires 0 <= i < |chain| => Layer(chain[|chain| - 1 - i].name, chain[|chain| - 1 - i].settings))
  }

  const OWN_DEVICE := "own device"

  /** The template's chain, root first, and on top of it what the device itself overrides; either may be missing. */
  method ResolveSettings(leaf: Option<Template>, available: map<nat, Template>, overrides: Option<Tree>)
    returns (resolved: Result<(Tree, map<string, string>), ()>)
    requires forall pk :: pk in available ==> available[pk].pk == pk && available[pk].settings.Node?
    requires (leaf.Some? ==> leaf.value.settings.Node?) && (overrides.Some? ==> overrides.value.Node?)
    ensures resolved.Err? <==> Cycles(leaf, available)
    ensures resolved.Ok? ==> exists chain: seq<Template> ::
              && (forall n: nat :: Walk(leaf, available, n) == if n < |chain| then Some(chain[n]) else None)
              && var layers := LayersOf(chain) + if overrides.Some? then [Layer(OWN_DEVICE, overrides.value)] else [];
                 Objects(layers) && resolved.value.0 == Resolved(layers) && IsSources(resolved.value.1, layers)
  {
    var chain := TemplateChain(leaf, available);
    if chain.Err? {
      return Err(());
    }
    var rows := chain.value;
    forall n | 0 <= n < |rows| ensures rows[n].settings.Node? {
      assert Walk(leaf, available, n) == Some(rows[n]);
    }
    var layers := LayersOf(rows);
    if overrides.Some? {
      layers := layers + [Layer(OWN_DEVICE, overrides.value)];
    }
    assert layers == LayersOf(rows) + if overrides.Some? then [Layer(OWN_DEVICE, overrides.value)] else [];
    var result := MergeLayers(layers);
    var sources := RuleSources(layers);
    return Ok((result, sources));
  }

  /** The first loop of `template_settings`. */
  method MergeLayers(layers: seq<Layer>) returns (result: Tree)
    requires Objects(layers)
    ensures result == Resolved(layers)
  {
    result := Node(map[]);
    for i := 0 to |layers|
      invariant result == Resolved(layers[..i])
    {
      assert layers[..i + 1][..i] == layers[..i];
      result := MergeInto(result, layers[i].settings);
    }
    assert layers[..|layers|] == layers;
  }

  // ---------------------------------------------------------------------------------------
  // Version templates
  // ---------------------------------------------------------------------------------------

  predicate IsDigit(c: char) { '0' <= c <= '9' }

  predicate IsBlank(c: char) { c == ' ' || c == '\t' || c == '\n' || c == '\r' }

  /** Words joined by single blanks, in lower case. */
  function NormalizeVersion(s: string): string { Squeeze(s, false, false) }

  function Squeeze(s: string, started: bool, gap: bool): string {
    if s == "" then ""
    else if IsBlank(s[0]) then Squeeze(s[1..], started, started)
    else
      var c := if 'A' <= s[0] <= 'Z' then (s[0] as int + 32) as char else s[0];
      (if gap then " " else "") + [c] + Squeeze(s[1..], true, false)
  }

  /** Lower case, single blanks, and none at either end. */
  predicate IsNormal(s: string) {
    IsTidy(s) && (s != "" ==> !IsBlank(s[0]) && !IsBlank(s[|s| - 1]))
  }

  /** The characters that are no blanks, in lower case. */
  function Ink(s: string): (ink: string) {
    if s == "" then ""
    else
      (if IsBlank(s[0]) then "" else [if 'A' <= s[0] <= 'Z' then (s[0] as int + 32) as char else s[0]]) + Ink(s[1..])
  }

  lemma InkOfBlank(s: string)
    ensures Ink(" " + s) == Ink(s)
  {
    assert (" " + s)[1..] == s;
  }

  lemma InkOfChar(c: char, s: string)
    requires !IsBlank(c) && !('A' <= c <= 'Z')
    ensures Ink([c] + s) == [c] + Ink(s)
  {
    assert ([c] + s)[1..] == s;
  }

  /** Normalising keeps every character that is no blank. */
  lemma {:induction false} SqueezeKeepsInk(s: string, started: bool, gap: bool)
    ensures Ink(Squeeze(s, started, gap)) == Ink(s)
  {
    if s != "" {
      if IsBlank(s[0]) {
        SqueezeKeepsInk(s[1..], started, started);
      } else {
        var c := if 'A' <= s[0] <= 'Z' then (s[0] as int + 32) as char else s[0];
        SqueezeKeepsInk(s[1..], true, false);
        InkWithGap(c, Squeeze(s[1..], true, false), gap);
      }
    }
  }

  lemma InkWithGap(c: char, rest: string, gap: bool)
    requires !IsBlank(c) && !('A' <= c <= 'Z')
    ensures Ink((if gap then " " else "") + [c] + rest) == [c] + Ink(rest)
  {
    InkOfChar(c, rest);
    if gap {
      InkOfBlank([c] + rest);
      assert " " + [c] + rest == " " + ([c] + rest);
    } else {
      assert "" + [c] + rest == [c] + rest;
    }
  }

  /** Between words, lower case and single blanks. */
  predicate IsTidy(s: string) {
    && (forall i :: 0 <= i < |s| ==> !('A' <= s[i] <= 'Z') && (IsBlank(s[i]) ==> s[i] == ' '))
    && (forall i :: 0 <= i < |s| - 1 ==> !(IsBlank(s[i]) && IsBlank(s[i + 1])))
  }

  lemma TidyTail(s: string)
    requires IsTidy(s) && s != ""
    ensures IsTidy(s[1..])
  {
  }

  /** A text that is normal already stays as it is: words and the blanks between them are kept. */
  lemma {:induction false} SqueezeKeepsNormal(s: string, started: bool)
    requires IsTidy(s) && (s != "" ==> !IsBlank(s[|s| - 1]) && (started || !IsBlank(s[0])))
    ensures Squeeze(s, started, false) == s
  {
    if s != "" {
      TidyTail(s);
      var t := s[1..];
      if IsBlank(s[0]) {
        assert t != "" && t[|t| - 1] == s[|s| - 1] && !IsBlank(t[0]);
        TidyTail(t);
        assert t[1..] != "" ==> t[1..][|t| - 2] == t[|t| - 1];
        SqueezeKeepsNormal(t[1..], true);
        assert Squeeze(t, true, true) == " " + [t[0]] + t[1..];
        assert s == " " + [t[0]] + t[1..];
      } else {
        assert t != "" ==> t[|t| - 1] == s[|s| - 1];
        SqueezeKeepsNormal(t, true);
        assert s == [s[0]] + t;
      }
    }
  }

  lemma NormalizeReads(s: string)
    ensures Ink(NormalizeVersion(s)) == Ink(s)
    ensures IsNormal(s) ==> NormalizeVersion(s) == s
  {
    SqueezeKeepsInk(s, false, false);
    if IsNormal(s) {
      SqueezeKeepsNormal(s, false);
    }
  }

  /** The keyword occurs in the text, and a digit at either end of it is not part of a longer number. */
  predicate Occurs(keyword: string, text: string)
    requires keyword != ""
  {
    exists i | 0 <= i <= |text| - |keyword| :: OccursAt(keyword, text, i)
  }

  predicate OccursAt(keyword: string, text: string, i: nat)
    requires keyword != "" && i <= |text| - |keyword|
  {
    var end := i + |keyword|;
    && text[i..end] == keyword
    && (IsDigit(keyword[0]) && i > 0 ==> !IsDigit(text[i - 1]))
    && (IsDigit(keyword[|keyword| - 1]) && end < |text| ==> !IsDigit(text[end]))
  }

  /** The keyword stands somewhere in the text, and no digit continues a digit at either end of it. */
  lemma OccursExactly(keyword: string, text: string)
    requires keyword != ""
    ensures Occurs(keyword, text) <==> exists before, after :: StandsBetween(keyword, text, before, after)
  {
    if Occurs(keyword, text) {
      var i :| 0 <= i <= |text| - |keyword| && OccursAt(keyword, text, i);
      assert text == text[..i] + keyword + text[i + |keyword|..];
      assert StandsBetween(keyword, text, text[..i], text[i + |keyword|..]);
    }
    if before, after :| StandsBetween(keyword, text, before, after) {
      assert text[|before|..|before| + |keyword|] == keyword;
      assert OccursAt(keyword, text, |before|);
    }
  }

  ghost predicate StandsBetween(keyword: string, text: string, before: string, after: string)
    requires keyword != ""
  {
    && text == before + keyword + after
    && (before != "" && '0' <= before[|before| - 1] <= '9' ==> !('0' <= keyword[0] <= '9'))
    && (after != "" && '0' <= after[0] <= '9' ==> !('0' <= keyword[|keyword| - 1] <= '9'))
  }

  lemma DiffersAt(keyword: string, text: string, i: nat, k: nat)
    requires k < |keyword| && i <= |text| - |keyword| && text[i + k] != keyword[k]
    ensures !OccursAt(keyword, text, i)
  {
    assert text[i..i + |keyword|][k] == text[i + k];
  }

  /** A rule for 7.1 matches neither 17.1 nor 7.10, but version 7.1 of anything. */
  lemma NotBehindADigit()
    ensures !Occurs("7.1", "17.1")
  {
    forall i | 0 <= i <= 1 ensures !OccursAt("7.1", "17.1", i) {
      if i == 0 {
        DiffersAt("7.1", "17.1", 0, 0);
      }
    }
  }

  lemma NotBeforeADigit()
    ensures !Occurs("7.1", "7.10")
  {
    forall i | 0 <= i <= 1 ensures !OccursAt("7.1", "7.10", i) {
      if i == 1 {
        DiffersAt("7.1", "7.10", 1, 0);
      }
    }
  }

  lemma AmongOtherWords()
    ensures Occurs("7.1", "version " + "7.1" + " release 2")
  {
    assert StandsBetween("7.1", "version " + "7.1" + " release 2", "version ", " release 2");
    OccursExactly("7.1", "version " + "7.1" + " release 2");
  }

  predicate IsCandidate(leaf: Template, text: string, row: Template) {
    var keyword := NormalizeVersion(row.versionMatch);
    && row.enabled && keyword != "" && row.parent == Some(leaf.pk)
    && row.vendor == leaf.vendor && row.subtype == leaf.subtype
    && Occurs(keyword, text)
  }

  function CandidateTest(leaf: Template, text: string): Template -> bool {
    (row: Template) => IsCandidate(leaf, text, row)
  }

  function HasLength(length: nat): Template -> bool {
    (row: Template) => |row.versionMatch| == length
  }

  datatype MatchStatus = Matched | Ambiguous | Unmatched | UnknownVersion

  function Select(rows: seq<Template>, wanted: Template -> bool): (picked: seq<Template>)
    ensures forall r :: r in picked <==> r in rows && wanted(r)
  {
    if rows == [] then []
    else Select(rows[..|rows| - 1], wanted) + if wanted(rows[|rows| - 1]) then [rows[|rows| - 1]] else []
  }

  function Longest(rows: seq<Template>): (length: nat)
    ensures forall r :: r in rows ==> |r.versionMatch| <= length
    ensures rows != [] ==> exists r :: r in rows && |r.versionMatch| == length
  {
    if rows == [] then 0
    else
      var front := Longest(rows[..|rows| - 1]);
      var own := |rows[|rows| - 1].versionMatch|;
      if own >= front then own else front
  }

  function Candidates(leaf: Option<Template>, rows: seq<Template>, version: string): (candidates: seq<Template>) {
    var text := NormalizeVersion(version);
    if leaf.Some? && leaf.value.subtype != "" && text != ""
    then Select(rows, CandidateTest(leaf.value, text)) else []
  }

  function Winners(candidates: seq<Template>): (winners: seq<Template>) {
    Select(candidates, HasLength(Longest(candidates)))
  }

  function VersionChoice(leaf: Option<Template>, rows: seq<Template>, version: string)
    : (choice: (Option<Template>, MatchStatus))
  {
    var candidates := Candidates(leaf, rows, version);
    if candidates != [] then
      var winners := Winners(candidates);
      if |winners| == 1 then (Some(winners[0]), Matched) else (leaf, Ambiguous)
    else (leaf, if NormalizeVersion(version) != "" then Unmatched else UnknownVersion)
  }

  /** The loop of `_version_template`. */
  method MatchingTemplates(leaf: Option<Template>, rows: seq<Template>, version: string)
      returns (candidates: seq<Template>)
    ensures candidates == Candidates(leaf, rows, version)
  {
    var text := NormalizeVersion(version);
    candidates := [];
    if leaf.None? || leaf.value.subtype == "" || text == "" {
      return;
    }
    for i := 0 to |rows|
      invariant candidates == Select(rows[..i], CandidateTest(leaf.value, text))
    {
      assert rows[..i + 1][..i] == rows[..i];
      if IsCandidate(leaf.value, text, rows[i]) {
        candidates := candidates + [rows[i]];
      }
    }
    assert rows[..|rows|] == rows;
  }

  method VersionTemplate(leaf: Option<Template>, rows: seq<Template>, version: string)
    returns (template: Option<Template>, status: MatchStatus)
    ensures (template, status) == VersionChoice(leaf, rows, version)
  {
    var candidates := MatchingTemplates(leaf, rows, version);
    if candidates != [] {
      var winners := Winners(candidates);
      if |winners| == 1 {
        return Some(winners[0]), Matched;
      }
      return leaf, Ambiguous;
    }
    return leaf, if NormalizeVersion(version) != "" then Unmatched else UnknownVersion;
  }

  lemma {:induction false} SelectCounts(rows: seq<Template>, wanted: Template -> bool, r: Template)
    ensures multiset(Select(rows, wanted))[r] == if wanted(r) then multiset(rows)[r] else 0
  {
    if rows != [] {
      var last := |rows| - 1;
      SelectCounts(rows[..last], wanted, r);
      assert rows == rows[..last] + [rows[last]];
    }
  }

  /** `best` is listed once, matches, and has a longer keyword than every other match. */
  ghost predicate IsUniqueLongest(leaf: Template, rows: seq<Template>, text: string, best: Template) {
    && multiset(rows)[best] == 1 && IsCandidate(leaf, text, best)
    && forall r :: r in rows && r != best && IsCandidate(leaf, text, r) ==> |r.versionMatch| < |best.versionMatch|
  }

  lemma SingleWinner(candidates: seq<Template>, best: Template)
    ensures Winners(candidates) == [best] <==>
            && multiset(candidates)[best] == 1
            && forall r :: r in candidates && r != best ==> |r.versionMatch| < |best.versionMatch|
  {
    var winners := Winners(candidates);
    SelectCounts(candidates, HasLength(Longest(candidates)), best);
    forall r ensures r in winners <==> r in candidates && |r.versionMatch| == Longest(candidates) {
    }
    if winners == [best] {
      assert multiset(winners)[best] == 1;
    }
    if multiset(candidates)[best] == 1 && forall r :: r in candidates && r != best ==>
        |r.versionMatch| < |best.versionMatch| {
      assert best in candidates;
      assert forall r :: r in winners ==> r == best;
      OnlyBest(winners, best);
    }
  }

  lemma {:induction false} OnlyBest(winners: seq<Template>, best: Template)
    requires forall k :: 0 <= k < |winners| ==> winners[k] == best
    ensures multiset(winners)[best] == |winners|
  {
    if winners != [] {
      assert winners == winners[..|winners| - 1] + [winners[|winners| - 1]];
      OnlyBest(winners[..|winners| - 1], best);
    }
  }

  /** A match is exactly the one candidate with the longest keyword; a tie falls back to the leaf. */
  lemma ChoiceIsTheUniqueLongest(leaf: Option<Template>, rows: seq<Template>, version: string, best: Template)
    ensures VersionChoice(leaf, rows, version) == (Some(best), Matched) <==>
            && leaf.Some? && leaf.value.subtype != "" && NormalizeVersion(version) != ""
            && IsUniqueLongest(leaf.value, rows, NormalizeVersion(version), best)
  {
    var text := NormalizeVersion(version);
    var candidates := Candidates(leaf, rows, version);
    SingleWinner(candidates, best);
    if leaf.Some? && leaf.value.subtype != "" && text != "" {
      SelectCounts(rows, CandidateTest(leaf.value, text), best);
      assert forall r :: r in candidates <==> r in rows && IsCandidate(leaf.value, text, r);
    }
  }

  /** A candidate for a version is a version rule below the leaf whose keyword stands in the text. */
  lemma CandidateReads(leaf: Template, text: string, row: Template)
    ensures IsCandidate(leaf, text, row) <==>
            && row.enabled && row.parent == Some(leaf.pk) && row.vendor == leaf.vendor && row.subtype == leaf.subtype
            && NormalizeVersion(row.versionMatch) != ""
            && exists before, after :: StandsBetween(NormalizeVersion(row.versionMatch), text, before, after)
  {
    if NormalizeVersion(row.versionMatch) != "" {
      OccursExactly(NormalizeVersion(row.versionMatch), text);
    }
  }

  /** Without a single best match the leaf stands, and the status says why. */
  lemma OtherwiseTheLeafStands(leaf: Option<Template>, rows: seq<Template>, version: string)
    ensures var (template, status) := VersionChoice(leaf, rows, version);
            var text := NormalizeVersion(version);
            var some := leaf.Some? && leaf.value.subtype != "" && text != ""
                        && exists r :: r in rows && IsCandidate(leaf.value, text, r);
            && (!status.Matched? ==> template == leaf)
            && (status.Matched? || status.Ambiguous? <==> some)
            && (status.Unmatched? <==> !some && text != "")
            && (status.UnknownVersion? <==> text == "")
            && (status.Matched? ==> template.Some?)
  {
    var text := NormalizeVersion(version);
    var candidates := Candidates(leaf, rows, version);
    if leaf.Some? && leaf.value.subtype != "" && text != "" {
      assert forall r :: r in candidates <==> r in rows && IsCandidate(leaf.value, text, r);
      if candidates != [] {
        assert candidates[0] in candidates;
      }
    }
  }

  lemma SelectPermuted(a: seq<Template>, b: seq<Template>, wanted: Template -> bool)
    requires multiset(a) == multiset(b)
    ensures multiset(Select(a, wanted)) == multiset(Select(b, wanted))
  {
    forall r ensures multiset(Select(a, wanted))[r] == multiset(Select(b, wanted))[r] {
      SelectCounts(a, wanted, r);
      SelectCounts(b, wanted, r);
    }
  }

  lemma LongestPermuted(a: seq<Template>, b: seq<Template>)
    requires multiset(a) == multiset(b)
    ensures Longest(a) == Longest(b)
  {
    assert forall r :: r in a <==> r in multiset(a);
    assert forall r :: r in b <==> r in multiset(b);
    assert a == [] <==> b == [] by {
      assert |multiset(a)| == |a| && |multiset(b)| == |b|;
    }
  }

  lemma SameSingle(v: seq<Template>, w: seq<Template>)
    requires multiset(v) == multiset(w)
    ensures |v| == |w| && (|v| == 1 ==> v[0] == w[0])
  {
    assert |multiset(v)| == |v| && |multiset(w)| == |w|;
    if |v| == 1 {
      assert v[0] in multiset(w);
    }
  }

  lemma WinnersPermuted(a: seq<Template>, b: seq<Template>)
    requires multiset(a) == multiset(b)
    ensures |Winners(a)| == |Winners(b)| && (|Winners(a)| == 1 ==> Winners(a)[0] == Winners(b)[0])
  {
    LongestPermuted(a, b);
    SelectPermuted(a, b, HasLength(Longest(a)));
    SameSingle(Winners(a), Winners(b));
  }

  /** The choice of a version template does not depend on the order the templates are listed in. */
  lemma VersionChoiceIgnoresOrder(leaf: Option<Template>, a: seq<Template>, b: seq<Template>, version: string)
    requires multiset(a) == multiset(b)
    ensures VersionChoice(leaf, a, version) == VersionChoice(leaf, b, version)
  {
    var text := NormalizeVersion(version);
    if leaf.Some? {
      SelectPermuted(a, b, CandidateTest(leaf.value, text));
    }
    var x, y := Candidates(leaf, a, version), Candidates(leaf, b, version);
    assert |multiset(x)| == |x| && |multiset(y)| == |y|;
    WinnersPermuted(x, y);
  }
}
