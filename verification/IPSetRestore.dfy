/**
The generator of ipset restore scripts (pkg/daemon/ipset/ipset.go), with an interpreter for its
commands as the kernel executes them under `ipset restore -exist`.
*/
module IPSetRestore {
  import opened Addresses
  import opened Finite
  import Strings

  // ---- the kernel ----------------------------------------------------------------------------------

  /** An element and its extensions, from the options of an entry. */
  datatype Entry = Entry(elem: string, ext: string)

  type Content = map<string, string>

  datatype KernelSet = KernelSet(options: string, content: Content)

  type Kernel = map<string, KernelSet>

  datatype Cmd =
    | Create(name: string, options: string)
    | Flush(name: string)
    | Add(name: string, entry: Entry)
    | Swap(name: string, other: string)
    | Destroy(name: string)

  /** One command; none when it fails, which ends the restore. */
  function Exec(k: Kernel, c: Cmd): (r: Option<Kernel>) {
    match c
    case Create(n, o) =>
      if n !in k then Some(k[n := KernelSet(o, map[])])
      else if k[n].options == o then Some(k)
      else None
    case Flush(n) => if n in k then Some(k[n := k[n].(content := map[])]) else None
    case Add(n, e) => if n in k then Some(k[n := k[n].(content := k[n].content[e.elem := e.ext])]) else None
    case Swap(n, m) =>
      if n in k && m in k && k[n].options == k[m].options then Some(k[n := k[m]][m := k[n]]) else None
    case Destroy(n) => if n in k then Some(k - {n}) else None
  }

  function Run(k: Kernel, cmds: seq<Cmd>): (r: Option<Kernel>)
    decreases |cmds|
  {
    if cmds == [] then Some(k)
    else
      match Exec(k, cmds[0])
      case None => None
      case Some(k') => Run(k', cmds[1..])
  }

  lemma {:induction false} RunAppend(k: Kernel, a: seq<Cmd>, b: seq<Cmd>)
    ensures Run(k, a + b) == if Run(k, a).Some? then Run(Run(k, a).value, b) else None
    decreases |a|
  {
    if a == [] {
      assert a + b == b;
    } else {
      assert (a + b)[0] == a[0] && (a + b)[1..] == a[1..] + b;
      if Exec(k, a[0]).Some? {
        RunAppend(Exec(k, a[0]).value, a[1..], b);
      }
    }
  }

  // ---- the script ----------------------------------------------------------------------------------

  /** Stands for the hash that gives each option string the name of its temporary set. */
  type TempNames = map<string, string>

  function Tmp(tmp: TempNames, options: string): (t: string) {
    if options in tmp then tmp[options] else ""
  }

  datatype SetDef = SetDef(entries: seq<Entry>, options: seq<string>)

  function Join(parts: seq<string>): (s: string) {
    Strings.Join(parts, ' ')
  }

  function Adds(t: string, entries: seq<Entry>): (c: seq<Cmd>)
    ensures |c| == |entries| && forall i :: 0 <= i < |c| ==> c[i] == Cmd.Add(t, entries[i])
  {
    seq(|entries|, i requires 0 <= i < |entries| => Cmd.Add(t, entries[i]))
  }

  /** The commands for one set: a temporary set is made ready unless it is already, filled, swapped and emptied. */
  function SetScript(name: string, def: SetDef, t: string, ready: bool): (c: seq<Cmd>) {
    var o := Join(def.options);
    (if ready then [] else [Create(t, o), Flush(t)]) + Adds(t, def.entries) + [Create(name, o), Swap(t, name), Flush(t)]
  }

  /** The commands for all sets in order; `ready` are the options that have a temporary set. */
  function SetScripts(names: seq<string>, sets: map<string, SetDef>, tmp: TempNames, ready: set<string>): (c: seq<Cmd>)
    requires forall i :: 0 <= i < |names| ==> names[i] in sets
    decreases |names|
  {
    if names == [] then []
    else
      var o := Join(sets[names[0]].options);
      SetScript(names[0], sets[names[0]], Tmp(tmp, o), o in ready) + SetScripts(names[1..], sets, tmp, ready + {o})
  }

  function Destroys(temps: seq<string>): (c: seq<Cmd>)
    ensures |c| == |temps| && forall i :: 0 <= i < |c| ==> c[i] == Destroy(temps[i])
  {
    seq(|temps|, i requires 0 <= i < |temps| => Destroy(temps[i]))
  }

  // ---- one set ------------------------------------------------------------------------------------

  /** What a set with these entries holds: the last one given for each element. */
  function Filled(c: Content, entries: seq<Entry>): (r: Content)
    decreases |entries|
  {
    if entries == [] then c else Filled(c[entries[0].elem := entries[0].ext], entries[1..])
  }

  function Holds(def: SetDef): (s: KernelSet) {
    KernelSet(Join(def.options), Filled(map[], def.entries))
  }

  /** The entry is the last one given for its element. */
  ghost predicate LastFor(entries: seq<Entry>, i: int) {
    0 <= i < |entries| && forall j :: i < j < |entries| ==> entries[j].elem != entries[i].elem
  }

  /** The content is what the entries give: no other element, and each with the extensions given last. */
  ghost predicate FilledBy(content: Content, entries: seq<Entry>) {
    && (forall e :: e in content ==> exists i :: 0 <= i < |entries| && entries[i].elem == e)
    && (forall i :: 0 <= i < |entries| ==> entries[i].elem in content)
    && (forall i :: LastFor(entries, i) ==> entries[i].elem in content && content[entries[i].elem] == entries[i].ext)
  }

  /** The set was made with the options of its definition, read as words, and filled by its entries. */
  ghost predicate MadeFrom(s: KernelSet, def: SetDef) {
    && FilledBy(s.content, def.entries)
    && (def.options != [] && Strings.Clean(def.options, ' ') ==> Strings.Split(s.options, ' ') == def.options)
  }

  lemma {:induction false} FilledLast(c: Content, entries: seq<Entry>, e: string)
    ensures e in Filled(c, entries) <==> e in c || exists i :: 0 <= i < |entries| && entries[i].elem == e
    ensures (forall i :: 0 <= i < |entries| ==> entries[i].elem != e) && e in c ==> Filled(c, entries)[e] == c[e]
    ensures forall i :: LastFor(entries, i) && entries[i].elem == e ==> Filled(c, entries)[e] == entries[i].ext
    decreases |entries|
  {
    if entries != [] {
      var rest := entries[1..];
      FilledLast(c[entries[0].elem := entries[0].ext], rest, e);
      assert forall i :: 1 <= i < |entries| ==> entries[i] == rest[i - 1];
      assert forall i :: 0 <= i < |rest| ==> rest[i] == entries[i + 1];
      forall i | LastFor(entries, i) && entries[i].elem == e
        ensures Filled(c, entries)[e] == entries[i].ext
      {
        if i > 0 {
          assert LastFor(rest, i - 1);
        }
      }
    }
  }

  lemma FilledIsBy(entries: seq<Entry>)
    ensures FilledBy(Filled(map[], entries), entries)
  {
    var content := Filled(map[], entries);
    forall e | e in content
      ensures exists i :: 0 <= i < |entries| && entries[i].elem == e
    {
      FilledLast(map[], entries, e);
    }
    forall i | 0 <= i < |entries|
      ensures entries[i].elem in content
    {
      FilledLast(map[], entries, entries[i].elem);
    }
    forall i | LastFor(entries, i)
      ensures entries[i].elem in content && content[entries[i].elem] == entries[i].ext
    {
      FilledLast(map[], entries, entries[i].elem);
    }
  }

  lemma HoldsMadeFrom(def: SetDef)
    ensures MadeFrom(Holds(def), def)
  {
    FilledIsBy(def.entries);
    if def.options != [] && Strings.Clean(def.options, ' ') {
      Strings.SplitJoin(def.options, ' ');
    }
  }

  lemma {:induction false} RunAdds(k: Kernel, t: string, entries: seq<Entry>)
    requires t in k
    ensures Run(k, Adds(t, entries)) == Some(k[t := k[t].(content := Filled(k[t].content, entries))])
    decreases |entries|
  {
    if entries == [] {
      assert k[t := k[t]] == k;
    } else {
      var k' := Exec(k, Cmd.Add(t, entries[0])).value;
      RunAdds(k', t, entries[1..]);
      assert Adds(t, entries)[1..] == Adds(t, entries[1..]);
      assert k'[t := k'[t].(content := Filled(k'[t].content, entries[1..]))]
          == k[t := k[t].(content := Filled(k[t].content, entries))];
    }
  }

  /** The set and its temporary set may exist, with these options. */
  ghost predicate Fits(k: Kernel, name: string, o: string, t: string, ready: bool) {
    && t != name
    && (name in k ==> k[name].options == o)
    && (t in k ==> k[t].options == o)
    && (ready ==> t in k && k[t].content == map[])
  }

  /** The kernel after the commands for one set: the set holds its entries, the temporary set is empty. */
  function AfterSet(k: Kernel, name: string, def: SetDef, t: string): (r: Kernel) {
    k[t := KernelSet(Join(def.options), map[])][name := Holds(def)]
  }

  /** The part of a set's script that only touches the temporary set. */
  function FillScript(def: SetDef, t: string, ready: bool): (c: seq<Cmd>) {
    (if ready then [] else [Create(t, Join(def.options)), Flush(t)]) + Adds(t, def.entries)
  }

  lemma RunFill(k: Kernel, name: string, def: SetDef, t: string, ready: bool)
    requires Fits(k, name, Join(def.options), t, ready)
    ensures Run(k, FillScript(def, t, ready)) == Some(k[t := Holds(def)])
  {
    var o := Join(def.options);
    var empty := k[t := KernelSet(o, map[])];
    var prep := if ready then [] else [Create(t, o), Flush(t)];
    assert Run(k, prep) == Some(empty) by {
      if ready {
        assert empty == k;
      } else {
        var k1 := Exec(k, Create(t, o)).value;
        assert Run(k1, [Flush(t)]) == Some(empty) by {
          assert k1[t := k1[t].(content := map[])] == empty;
          assert [Flush(t)][1..] == [];
        }
        assert prep[1..] == [Flush(t)];
      }
    }
    RunAppend(k, prep, Adds(t, def.entries));
    RunAdds(empty, t, def.entries);
    assert empty[t := Holds(def)] == k[t := Holds(def)];
  }

  /** The kernel after the first `i` of the last three commands of a set's script. */
  function Finishing(k: Kernel, name: string, def: SetDef, t: string, i: nat): (r: Kernel)
    requires i <= 3
  {
    var o := Join(def.options);
    var prior := if name in k then k[name] else KernelSet(o, map[]);
    if i == 0 then k[t := Holds(def)]
    else if i == 1 then k[t := Holds(def)][name := prior]
    else if i == 2 then k[t := prior][name := Holds(def)]
    else AfterSet(k, name, def, t)
  }

  lemma RunFinish(k: Kernel, name: string, def: SetDef, t: string, ready: bool, i: nat)
    requires Fits(k, name, Join(def.options), t, ready) && i <= 3
    ensures Run(k[t := Holds(def)], [Create(name, Join(def.options)), Swap(t, name), Flush(t)][..i]) ==
            Some(Finishing(k, name, def, t, i))
    decreases i
  {
    var o := Join(def.options);
    var cmds := [Create(name, o), Swap(t, name), Flush(t)];
    if i > 0 {
      RunFinish(k, name, def, t, ready, i - 1);
      assert cmds[..i] == cmds[..i - 1] + [cmds[i - 1]];
      RunAppend(k[t := Holds(def)], cmds[..i - 1], [cmds[i - 1]]);
      var before, after := Finishing(k, name, def, t, i - 1), Finishing(k, name, def, t, i);
      assert Exec(before, cmds[i - 1]) == Some(after) by {
        assert Exec(before, cmds[i - 1]).Some?;
        assert Exec(before, cmds[i - 1]).value == after;
      }
    }
  }

  // ---- all sets -----------------------------------------------------------------------------------

  function Options(sets: map<string, SetDef>, n: string): (o: string)
    requires n in sets
  {
    Join(sets[n].options)
  }

  /** The sets are known and distinct; existing sets and temporary sets have the options given here; a temporary
      name belongs to one option string and to no set. */
  ghost predicate Compatible(k: Kernel, names: seq<string>, sets: map<string, SetDef>, tmp: TempNames,
                             ready: set<string>) {
    && Distinct(names)
    && (forall i :: 0 <= i < |names| ==> names[i] in sets)
    && (forall i :: 0 <= i < |names| ==>
          var o := Options(sets, names[i]); Fits(k, names[i], o, Tmp(tmp, o), o in ready))
    && (forall i, j :: 0 <= i < |names| && 0 <= j < |names| ==> Tmp(tmp, Options(sets, names[i])) != names[j])
    && (forall i, j ::
          && 0 <= i < |names| && 0 <= j < |names|
          && Tmp(tmp, Options(sets, names[i])) == Tmp(tmp, Options(sets, names[j])) ==>
          Options(sets, names[i]) == Options(sets, names[j]))
  }

  function AfterSets(k: Kernel, names: seq<string>, sets: map<string, SetDef>, tmp: TempNames): (r: Kernel)
    requires forall i :: 0 <= i < |names| ==> names[i] in sets
    decreases |names|
  {
    if names == [] then k
    else AfterSets(AfterSet(k, names[0], sets[names[0]], Tmp(tmp, Options(sets, names[0]))), names[1..], sets, tmp)
  }

  lemma CompatibleRest(k: Kernel, names: seq<string>, sets: map<string, SetDef>, tmp: TempNames, ready: set<string>)
    requires names != [] && Compatible(k, names, sets, tmp, ready)
    ensures var o := Options(sets, names[0]);
      Compatible(AfterSet(k, names[0], sets[names[0]], Tmp(tmp, o)), names[1..], sets, tmp, ready + {o})
  {
    var rest, o := names[1..], Options(sets, names[0]);
    var k' := AfterSet(k, names[0], sets[names[0]], Tmp(tmp, o));
    forall i | 0 <= i < |rest|
      ensures var p := Options(sets, rest[i]); Fits(k', rest[i], p, Tmp(tmp, p), p in ready + {o})
    {
      var p := Options(sets, rest[i]);
      assert rest[i] == names[i + 1] && rest[i] != names[0];
      assert Tmp(tmp, p) != names[0] && Tmp(tmp, o) != rest[i] && Tmp(tmp, p) != rest[i];
      assert Fits(k, rest[i], p, Tmp(tmp, p), p in ready);
      assert Tmp(tmp, p) == Tmp(tmp, o) ==> p == o;
    }
  }

  lemma RunSet(k: Kernel, name: string, def: SetDef, t: string, ready: bool)
    requires Fits(k, name, Join(def.options), t, ready)
    ensures Run(k, SetScript(name, def, t, ready)) == Some(AfterSet(k, name, def, t))
  {
    var fill, finish := FillScript(def, t, ready), [Create(name, Join(def.options)), Swap(t, name), Flush(t)];
    assert SetScript(name, def, t, ready) == fill + finish;
    RunFill(k, name, def, t, ready);
    RunAppend(k, fill, finish);
    RunFinish(k, name, def, t, ready, 3);
    assert finish[..3] == finish;
  }

  lemma {:induction false} RunSets(k: Kernel, names: seq<string>, sets: map<string, SetDef>, tmp: TempNames,
                                   ready: set<string>)
    requires Compatible(k, names, sets, tmp, ready)
    ensures Run(k, SetScripts(names, sets, tmp, ready)) == Some(AfterSets(k, names, sets, tmp))
    decreases |names|
  {
    if names != [] {
      var o := Options(sets, names[0]);
      var k' := AfterSet(k, names[0], sets[names[0]], Tmp(tmp, o));
      assert Fits(k, names[0], o, Tmp(tmp, o), o in ready);
      RunSet(k, names[0], sets[names[0]], Tmp(tmp, o), o in ready);
      CompatibleRest(k, names, sets, tmp, ready);
      RunSets(k', names[1..], sets, tmp, ready + {o});
      RunAppend(k, SetScript(names[0], sets[names[0]], Tmp(tmp, o), o in ready),
                SetScripts(names[1..], sets, tmp, ready + {o}));
    }
  }

  /** The name is neither one of the sets nor one of their temporary sets. */
  ghost predicate Foreign(x: string, names: seq<string>, sets: map<string, SetDef>, tmp: TempNames)
    requires forall i :: 0 <= i < |names| ==> names[i] in sets
  {
    forall i :: 0 <= i < |names| ==> x != names[i] && x != Tmp(tmp, Options(sets, names[i]))
  }

  ghost predicate SameAt(k: Kernel, r: Kernel, x: string) {
    (x in k <==> x in r) && (x in k ==> r[x] == k[x])
  }

  /** Every set holds its entries, the temporary sets exist, and nothing else has changed. */
  ghost predicate Restored(k: Kernel, r: Kernel, names: seq<string>, sets: map<string, SetDef>, tmp: TempNames)
    requires forall i :: 0 <= i < |names| ==> names[i] in sets
  {
    && (forall i :: 0 <= i < |names| ==> names[i] in r && r[names[i]] == Holds(sets[names[i]]))
    && (forall i :: 0 <= i < |names| ==> Tmp(tmp, Options(sets, names[i])) in r)
    && (forall x :: Foreign(x, names, sets, tmp) ==> SameAt(k, r, x))
  }

  lemma ForeignRest(x: string, names: seq<string>, sets: map<string, SetDef>, tmp: TempNames)
    requires names != [] && forall i :: 0 <= i < |names| ==> names[i] in sets
    ensures Foreign(x, names, sets, tmp) <==>
            Foreign(x, names[1..], sets, tmp) && x != names[0] && x != Tmp(tmp, Options(sets, names[0]))
  {
    var rest := names[1..];
    forall i | 0 <= i < |rest|
      ensures rest[i] == names[i + 1]
    {
    }
    if Foreign(x, rest, sets, tmp) {
      forall i | 0 < i < |names|
        ensures x != names[i] && x != Tmp(tmp, Options(sets, names[i]))
      {
        assert names[i] == rest[i - 1];
      }
    }
  }

  lemma RestoredFirst(k: Kernel, k': Kernel, r: Kernel, names: seq<string>, sets: map<string, SetDef>, tmp: TempNames,
                      ready: set<string>)
    requires names != [] && Compatible(k, names, sets, tmp, ready)
    requires k' == AfterSet(k, names[0], sets[names[0]], Tmp(tmp, Options(sets, names[0])))
    requires Restored(k', r, names[1..], sets, tmp)
    ensures Restored(k, r, names, sets, tmp)
  {
    var rest, t := names[1..], Tmp(tmp, Options(sets, names[0]));
    assert Foreign(names[0], rest, sets, tmp);
    assert SameAt(k', r, names[0]);
    if !exists i :: 0 <= i < |rest| && t == Tmp(tmp, Options(sets, rest[i])) {
      assert Foreign(t, rest, sets, tmp);
    }
    forall i | 0 <= i < |names|
      ensures names[i] in r && r[names[i]] == Holds(sets[names[i]]) && Tmp(tmp, Options(sets, names[i])) in r
    {
      if i > 0 {
        assert names[i] == rest[i - 1];
      }
    }
    forall x | Foreign(x, names, sets, tmp)
      ensures SameAt(k, r, x)
    {
      ForeignRest(x, names, sets, tmp);
      assert SameAt(k', r, x);
    }
  }

  lemma {:induction false} AfterSetsRestored(k: Kernel, names: seq<string>, sets: map<string, SetDef>, tmp: TempNames,
                                             ready: set<string>)
    requires Compatible(k, names, sets, tmp, ready)
    ensures Restored(k, AfterSets(k, names, sets, tmp), names, sets, tmp)
    decreases |names|
  {
    if names != [] {
      var o := Options(sets, names[0]);
      var k' := AfterSet(k, names[0], sets[names[0]], Tmp(tmp, o));
      CompatibleRest(k, names, sets, tmp, ready);
      AfterSetsRestored(k', names[1..], sets, tmp, ready + {o});
      RestoredFirst(k, k', AfterSets(k', names[1..], sets, tmp), names, sets, tmp, ready);
    }
  }

  // ---- the temporary sets go --------------------------------------------------------------------------

  lemma {:induction false} RunDestroys(k: Kernel, temps: seq<string>)
    requires Distinct(temps) && forall i :: 0 <= i < |temps| ==> temps[i] in k
    ensures Run(k, Destroys(temps)) == Some(k - Elements(temps))
    decreases |temps|
  {
    if temps == [] {
      assert k - Elements(temps) == k;
    } else {
      var k' := k - {temps[0]};
      RunDestroys(k', temps[1..]);
      assert Destroys(temps)[1..] == Destroys(temps[1..]);
      assert k' - Elements(temps[1..]) == k - Elements(temps);
    }
  }

  ghost predicate IsTemp(t: string, names: seq<string>, sets: map<string, SetDef>, tmp: TempNames)
    requires forall i :: 0 <= i < |names| ==> names[i] in sets
  {
    exists i :: 0 <= i < |names| && t == Tmp(tmp, Options(sets, names[i]))
  }

  /** `temps` are the temporary names of the sets, each once. */
  ghost predicate TempsOf(temps: seq<string>, names: seq<string>, sets: map<string, SetDef>, tmp: TempNames)
    requires forall i :: 0 <= i < |names| ==> names[i] in sets
  {
    && Distinct(temps)
    && (forall j :: 0 <= j < |temps| ==> IsTemp(temps[j], names, sets, tmp))
    && (forall i :: 0 <= i < |names| ==> Tmp(tmp, Options(sets, names[i])) in temps)
  }

  function FullScript(names: seq<string>, sets: map<string, SetDef>, tmp: TempNames, temps: seq<string>): (c: seq<Cmd>)
    requires forall i :: 0 <= i < |names| ==> names[i] in sets
  {
    SetScripts(names, sets, tmp, {}) + Destroys(temps)
  }

  lemma TempsOnly(k: Kernel, names: seq<string>, sets: map<string, SetDef>, tmp: TempNames, temps: seq<string>)
    requires Compatible(k, names, sets, tmp, {}) && TempsOf(temps, names, sets, tmp)
    ensures forall i :: 0 <= i < |names| ==> names[i] !in temps
    ensures forall x :: Foreign(x, names, sets, tmp) ==> x !in temps
  {
    forall x | x in temps
      ensures !Foreign(x, names, sets, tmp) && x !in names
    {
      var j :| 0 <= j < |temps| && temps[j] == x;
      assert IsTemp(temps[j], names, sets, tmp);
    }
  }

  /** From any compatible kernel, leftovers of a crash included, the script runs through; then every set holds
      exactly its entries, no temporary set is left and every other set is as it was. */
  lemma RestoreCorrect(k: Kernel, names: seq<string>, sets: map<string, SetDef>, tmp: TempNames, temps: seq<string>)
    requires Compatible(k, names, sets, tmp, {}) && TempsOf(temps, names, sets, tmp)
    ensures Run(k, FullScript(names, sets, tmp, temps)).Some?
    ensures var r := Run(k, FullScript(names, sets, tmp, temps)).value;
      && (forall i :: 0 <= i < |names| ==> names[i] in r && r[names[i]] == Holds(sets[names[i]]))
      && (forall i :: 0 <= i < |names| ==> Tmp(tmp, Options(sets, names[i])) !in r)
      && (forall x :: Foreign(x, names, sets, tmp) ==> SameAt(k, r, x))
  {
    var done := AfterSets(k, names, sets, tmp);
    RunSets(k, names, sets, tmp, {});
    AfterSetsRestored(k, names, sets, tmp, {});
    RunDestroys(done, temps);
    RunAppend(k, SetScripts(names, sets, tmp, {}), Destroys(temps));
    TempsOnly(k, names, sets, tmp, temps);
  }

  // ---- atomicity -------------------------------------------------------------------------------------

  /** The content before, empty for a set that did not exist. */
  function Before(k: Kernel, n: string): (c: Content) {
    if n in k then k[n].content else map[]
  }

  /** No set is gone; each has its content from before or exactly its new content; all others are as they were. */
  ghost predicate Between(k: Kernel, r: Kernel, names: seq<string>, sets: map<string, SetDef>, tmp: TempNames)
    requires forall i :: 0 <= i < |names| ==> names[i] in sets
  {
    && (forall i :: 0 <= i < |names| ==> names[i] in k ==> names[i] in r)
    && (forall i :: 0 <= i < |names| ==> names[i] in r ==>
          r[names[i]].content == Before(k, names[i]) || r[names[i]] == Holds(sets[names[i]]))
    && (forall x :: Foreign(x, names, sets, tmp) ==> SameAt(k, r, x))
  }

  ghost predicate Touches(c: Cmd, t: string) {
    (c.Create? || c.Flush? || c.Add?) && c.name == t
  }

  lemma {:induction false} RunTouches(k: Kernel, cmds: seq<Cmd>, t: string, x: string)
    requires x != t && forall i :: 0 <= i < |cmds| ==> Touches(cmds[i], t)
    ensures Run(k, cmds).Some? ==> SameAt(k, Run(k, cmds).value, x)
    decreases |cmds|
  {
    if cmds != [] && Exec(k, cmds[0]).Some? {
      assert Touches(cmds[0], t);
      RunTouches(Exec(k, cmds[0]).value, cmds[1..], t, x);
    }
  }

  /** Only the set and its temporary set differ, and the set has its content from before or its new content. */
  ghost predicate MidSet(k: Kernel, r: Kernel, name: string, def: SetDef, t: string) {
    && (forall x :: x != t && x != name ==> SameAt(k, r, x))
    && (name in k ==> name in r)
    && (name in r ==> r[name].content == Before(k, name) || r[name] == Holds(def))
  }

  lemma FillPrefix(k: Kernel, name: string, def: SetDef, t: string, ready: bool, i: nat)
    requires Fits(k, name, Join(def.options), t, ready) && i <= |FillScript(def, t, ready)|
    ensures Run(k, FillScript(def, t, ready)[..i]).Some?
    ensures MidSet(k, Run(k, FillScript(def, t, ready)[..i]).value, name, def, t)
  {
    var fill := FillScript(def, t, ready);
    RunFill(k, name, def, t, ready);
    assert fill == fill[..i] + fill[i..];
    RunAppend(k, fill[..i], fill[i..]);
    forall x | x != t
      ensures SameAt(k, Run(k, fill[..i]).value, x)
    {
      RunTouches(k, fill[..i], t, x);
    }
    assert SameAt(k, Run(k, fill[..i]).value, name);
  }

  /** After any number of the commands for one set, the kernel is in the middle of that set at most. */
  lemma SetPrefix(k: Kernel, name: string, def: SetDef, t: string, ready: bool, i: nat)
    requires Fits(k, name, Join(def.options), t, ready) && i <= |SetScript(name, def, t, ready)|
    ensures Run(k, SetScript(name, def, t, ready)[..i]).Some?
    ensures MidSet(k, Run(k, SetScript(name, def, t, ready)[..i]).value, name, def, t)
  {
    var fill, finish := FillScript(def, t, ready), [Create(name, Join(def.options)), Swap(t, name), Flush(t)];
    var script := SetScript(name, def, t, ready);
    assert script == fill + finish;
    if i <= |fill| {
      assert script[..i] == fill[..i];
      FillPrefix(k, name, def, t, ready, i);
    } else {
      var j := i - |fill|;
      assert script[..i] == fill + finish[..j];
      RunFill(k, name, def, t, ready);
      RunAppend(k, fill, finish[..j]);
      RunFinish(k, name, def, t, ready, j);
      assert MidSet(k, Finishing(k, name, def, t, j), name, def, t);
    }
  }

  lemma MidSetBetween(k: Kernel, r: Kernel, names: seq<string>, sets: map<string, SetDef>, tmp: TempNames,
                      ready: set<string>)
    requires names != [] && Compatible(k, names, sets, tmp, ready)
    requires MidSet(k, r, names[0], sets[names[0]], Tmp(tmp, Options(sets, names[0])))
    ensures Between(k, r, names, sets, tmp)
  {
    var t := Tmp(tmp, Options(sets, names[0]));
    forall i | 0 < i < |names|
      ensures SameAt(k, r, names[i])
    {
      assert names[i] != names[0] && names[i] != t;
    }
    forall x | Foreign(x, names, sets, tmp)
      ensures SameAt(k, r, x)
    {
      assert x != names[0] && x != t;
    }
  }

  lemma BetweenFirst(k: Kernel, k': Kernel, r: Kernel, names: seq<string>, sets: map<string, SetDef>, tmp: TempNames,
                     ready: set<string>)
    requires names != [] && Compatible(k, names, sets, tmp, ready)
    requires k' == AfterSet(k, names[0], sets[names[0]], Tmp(tmp, Options(sets, names[0])))
    requires Between(k', r, names[1..], sets, tmp)
    ensures Between(k, r, names, sets, tmp)
  {
    var rest, t := names[1..], Tmp(tmp, Options(sets, names[0]));
    assert Foreign(names[0], rest, sets, tmp);
    assert SameAt(k', r, names[0]);
    forall i | 0 < i < |names|
      ensures names[i] in k ==> names[i] in r
      ensures names[i] in r ==> r[names[i]].content == Before(k, names[i]) || r[names[i]] == Holds(sets[names[i]])
    {
      assert names[i] == rest[i - 1] && names[i] != names[0] && names[i] != t;
    }
    forall x | Foreign(x, names, sets, tmp)
      ensures SameAt(k, r, x)
    {
      ForeignRest(x, names, sets, tmp);
      assert SameAt(k', r, x);
    }
  }

  lemma {:induction false} SetsPrefix(k: Kernel, names: seq<string>, sets: map<string, SetDef>, tmp: TempNames,
                                      ready: set<string>, i: nat)
    requires Compatible(k, names, sets, tmp, ready) && i <= |SetScripts(names, sets, tmp, ready)|
    ensures Run(k, SetScripts(names, sets, tmp, ready)[..i]).Some?
    ensures Between(k, Run(k, SetScripts(names, sets, tmp, ready)[..i]).value, names, sets, tmp)
    decreases |names|
  {
    if names != [] {
      var o, def := Options(sets, names[0]), sets[names[0]];
      var first := SetScript(names[0], def, Tmp(tmp, o), o in ready);
      var others := SetScripts(names[1..], sets, tmp, ready + {o});
      assert Fits(k, names[0], o, Tmp(tmp, o), o in ready);
      if i <= |first| {
        assert (first + others)[..i] == first[..i];
        SetPrefix(k, names[0], def, Tmp(tmp, o), o in ready, i);
        MidSetBetween(k, Run(k, first[..i]).value, names, sets, tmp, ready);
      } else {
        var k' := AfterSet(k, names[0], def, Tmp(tmp, o));
        assert (first + others)[..i] == first + others[..i - |first|];
        RunSet(k, names[0], def, Tmp(tmp, o), o in ready);
        RunAppend(k, first, others[..i - |first|]);
        CompatibleRest(k, names, sets, tmp, ready);
        SetsPrefix(k', names[1..], sets, tmp, ready + {o}, i - |first|);
        BetweenFirst(k, k', Run(k', others[..i - |first|]).value, names, sets, tmp, ready);
      }
    }
  }

  lemma DestroyedBetween(k: Kernel, done: Kernel, gone: seq<string>, names: seq<string>, sets: map<string, SetDef>,
                         tmp: TempNames)
    requires forall i :: 0 <= i < |names| ==> names[i] in sets && names[i] !in gone
    requires Restored(k, done, names, sets, tmp) && forall x :: Foreign(x, names, sets, tmp) ==> x !in gone
    ensures Between(k, done - Elements(gone), names, sets, tmp)
  {
  }

  lemma DestroyPrefix(k: Kernel, names: seq<string>, sets: map<string, SetDef>, tmp: TempNames, temps: seq<string>,
                      gone: seq<string>)
    requires Compatible(k, names, sets, tmp, {}) && TempsOf(temps, names, sets, tmp) && gone <= temps
    ensures var cmds := SetScripts(names, sets, tmp, {}) + Destroys(gone);
      Run(k, cmds).Some? && Between(k, Run(k, cmds).value, names, sets, tmp)
  {
    var done := AfterSets(k, names, sets, tmp);
    RunSets(k, names, sets, tmp, {});
    AfterSetsRestored(k, names, sets, tmp, {});
    RunDestroys(done, gone);
    RunAppend(k, SetScripts(names, sets, tmp, {}), Destroys(gone));
    TempsOnly(k, names, sets, tmp, temps);
    DestroyedBetween(k, done, gone, names, sets, tmp);
  }

  /** Wherever the script stops, no set is gone or half filled, and no other set has changed. */
  lemma RestoreAtomic(k: Kernel, names: seq<string>, sets: map<string, SetDef>, tmp: TempNames, temps: seq<string>,
                      i: nat)
    requires Compatible(k, names, sets, tmp, {}) && TempsOf(temps, names, sets, tmp)
    requires i <= |FullScript(names, sets, tmp, temps)|
    ensures Run(k, FullScript(names, sets, tmp, temps)[..i]).Some?
    ensures Between(k, Run(k, FullScript(names, sets, tmp, temps)[..i]).value, names, sets, tmp)
  {
    var main := SetScripts(names, sets, tmp, {});
    var script := main + Destroys(temps);
    if i <= |main| {
      assert script[..i] == main[..i];
      SetsPrefix(k, names, sets, tmp, {}, i);
    } else {
      var gone := temps[..i - |main|];
      assert script[..i] == main + Destroys(gone);
      DestroyPrefix(k, names, sets, tmp, temps, gone);
    }
  }

  // ---- the generator ---------------------------------------------------------------------------------

  /** The order of sort.Strings. */
  predicate Precedes(a: string, b: string) {
    a == [] || (b != [] && (a[0] < b[0] || (a[0] == b[0] && Precedes(a[1..], b[1..]))))
  }

  lemma {:induction false} OrderTotal(a: string, b: string)
    ensures Precedes(a, b) || Precedes(b, a)
  {
    if a != [] && b != [] && a[0] == b[0] {
      OrderTotal(a[1..], b[1..]);
    }
  }

  lemma {:induction false} OrderTransitive(a: string, b: string, c: string)
    requires Precedes(a, b) && Precedes(b, c)
    ensures Precedes(a, c)
  {
    if a != [] && a[0] == b[0] && b[0] == c[0] {
      OrderTransitive(a[1..], b[1..], c[1..]);
    }
  }

  ghost predicate Sorted(s: seq<string>) {
    forall i, j :: 0 <= i < j < |s| ==> Precedes(s[i], s[j])
  }

  function Insert(r: seq<string>, p: nat, x: string): (t: seq<string>)
    requires p <= |r|
    ensures |t| == |r| + 1
    ensures forall k :: 0 <= k < |t| ==> t[k] == if k < p then r[k] else if k == p then x else r[k - 1]
  {
    r[..p] + [x] + r[p..]
  }

  lemma InsertDistinct(r: seq<string>, p: nat, x: string)
    requires Distinct(r) && x !in r && p <= |r|
    ensures Distinct(Insert(r, p, x)) && Elements(Insert(r, p, x)) == Elements(r) + {x}
  {
    assert r == r[..p] + r[p..];
  }

  lemma AllBehind(r: seq<string>, p: nat, x: string, i: nat)
    requires Sorted(r) && p <= i < |r| && !Precedes(r[p], x)
    ensures Precedes(x, r[i])
  {
    OrderTotal(x, r[p]);
    if p < i {
      OrderTransitive(x, r[p], r[i]);
    }
  }

  lemma InsertSorted(r: seq<string>, p: nat, x: string)
    requires Sorted(r) && p <= |r|
    requires forall i :: 0 <= i < p ==> Precedes(r[i], x)
    requires p < |r| ==> !Precedes(r[p], x)
    ensures Sorted(Insert(r, p, x))
  {
    var t := Insert(r, p, x);
    forall i, j | 0 <= i < j < |t|
      ensures Precedes(t[i], t[j])
    {
      if i == p {
        AllBehind(r, p, x, j - 1);
      }
    }
  }

  /** The elements of a set in order, each once. */
  method SortStrings(s: set<string>) returns (r: seq<string>)
    ensures Sorted(r) && Distinct(r) && Elements(r) == s
  {
    r := [];
    var todo := s;
    while todo != {}
      invariant todo <= s && Sorted(r) && Distinct(r)
      invariant Elements(r) == s - todo
    {
      var x :| x in todo;
      assert x !in r;
      var p := 0;
      while p < |r| && Precedes(r[p], x)
        invariant 0 <= p <= |r|
        invariant forall i :: 0 <= i < p ==> Precedes(r[i], x)
      {
        p := p + 1;
      }
      InsertSorted(r, p, x);
      InsertDistinct(r, p, x);
      r := Insert(r, p, x);
      todo := todo - {x};
    }
  }

  ghost predicate IsOption(o: string, names: seq<string>, sets: map<string, SetDef>)
    requires forall i :: 0 <= i < |names| ==> names[i] in sets
  {
    exists i :: 0 <= i < |names| && o == Options(sets, names[i])
  }

  /** The commands for the sets from index `i` on. */
  function ScriptsFrom(names: seq<string>, i: nat, sets: map<string, SetDef>, tmp: TempNames, ready: set<string>)
    : (c: seq<Cmd>)
    requires i <= |names| && forall j :: 0 <= j < |names| ==> names[j] in sets
    decreases |names| - i
  {
    if i == |names| then []
    else
      var o := Options(sets, names[i]);
      SetScript(names[i], sets[names[i]], Tmp(tmp, o), o in ready) + ScriptsFrom(names, i + 1, sets, tmp, ready + {o})
  }

  lemma {:induction false} ScriptsFromIndex(names: seq<string>, i: nat, sets: map<string, SetDef>, tmp: TempNames,
                                            ready: set<string>)
    requires i <= |names| && forall j :: 0 <= j < |names| ==> names[j] in sets
    ensures ScriptsFrom(names, i, sets, tmp, ready) == SetScripts(names[i..], sets, tmp, ready)
    decreases |names| - i
  {
    if i < |names| {
      var o := Options(sets, names[i]);
      assert names[i..][0] == names[i] && names[i..][1..] == names[i + 1..];
      ScriptsFromIndex(names, i + 1, sets, tmp, ready + {o});
    }
  }

  lemma Regroup(done: seq<Cmd>, a: seq<Cmd>, b: seq<Cmd>)
    ensures done + (a + b) == done + a + b
  {
  }

  /** One turn of the main loop. */
  method EmitSet(script: seq<Cmd>, tmpSets: map<string, string>, name: string, def: SetDef, tmp: TempNames)
    returns (out: seq<Cmd>, outSets: map<string, string>)
    requires forall o :: o in tmpSets ==> tmpSets[o] == Tmp(tmp, o)
    ensures var o := Join(def.options);
      && out == script + SetScript(name, def, Tmp(tmp, o), o in tmpSets)
      && outSets == tmpSets[o := Tmp(tmp, o)]
  {
    var o := Join(def.options);
    out, outSets := script, tmpSets;
    if o !in outSets {
      out := out + [Create(Tmp(tmp, o), o), Flush(Tmp(tmp, o))];
      outSets := outSets[o := Tmp(tmp, o)];
    }
    out := out + Adds(outSets[o], def.entries);
    out := out + [Create(name, o), Swap(outSets[o], name), Flush(outSets[o])];
  }

  /** The option strings of the first `i` sets. */
  ghost function OptionsTo(names: seq<string>, i: nat, sets: map<string, SetDef>): (r: set<string>)
    requires i <= |names| && forall j :: 0 <= j < |names| ==> names[j] in sets
    ensures forall j :: 0 <= j < i ==> Options(sets, names[j]) in r
    ensures forall o :: o in r ==> IsOption(o, names, sets)
  {
    if i == 0 then {} else OptionsTo(names, i - 1, sets) + {Options(sets, names[i - 1])}
  }

  lemma ScriptsStep(script: seq<Cmd>, names: seq<string>, i: nat, sets: map<string, SetDef>, tmp: TempNames,
                    ready: set<string>)
    requires i < |names| && forall j :: 0 <= j < |names| ==> names[j] in sets
    ensures var o := Options(sets, names[i]);
      script + ScriptsFrom(names, i, sets, tmp, ready) ==
      script + SetScript(names[i], sets[names[i]], Tmp(tmp, o), o in ready)
      + ScriptsFrom(names, i + 1, sets, tmp, ready + {o})
  {
    var o := Options(sets, names[i]);
    Regroup(script, SetScript(names[i], sets[names[i]], Tmp(tmp, o), o in ready),
            ScriptsFrom(names, i + 1, sets, tmp, ready + {o}));
  }

  /** Where the main loop stands: the temporary name of every option string met, and the script so far. */
  ghost predicate Collected(names: seq<string>, i: nat, sets: map<string, SetDef>, tmp: TempNames, script: seq<Cmd>,
                            tmpSets: map<string, string>)
    requires i <= |names| && forall j :: 0 <= j < |names| ==> names[j] in sets
  {
    && tmpSets.Keys == OptionsTo(names, i, sets)
    && (forall o :: o in tmpSets ==> tmpSets[o] == Tmp(tmp, o))
    && script + ScriptsFrom(names, i, sets, tmp, tmpSets.Keys) == ScriptsFrom(names, 0, sets, tmp, {})
  }

  lemma CollectStep(names: seq<string>, i: nat, sets: map<string, SetDef>, tmp: TempNames, script: seq<Cmd>,
                    tmpSets: map<string, string>, out: seq<Cmd>, outSets: map<string, string>)
    requires i < |names| && forall j :: 0 <= j < |names| ==> names[j] in sets
    requires Collected(names, i, sets, tmp, script, tmpSets)
    requires var o := Options(sets, names[i]);
      && out == script + SetScript(names[i], sets[names[i]], Tmp(tmp, o), o in tmpSets)
      && outSets == tmpSets[o := Tmp(tmp, o)]
    ensures Collected(names, i + 1, sets, tmp, out, outSets)
  {
    ScriptsStep(script, names, i, sets, tmp, tmpSets.Keys);
    assert outSets.Keys == tmpSets.Keys + {Options(sets, names[i])};
  }

  /** The main loop: the commands of all sets, and the temporary name of every option string met. */
  method CollectScripts(setNames: seq<string>, sets: map<string, SetDef>, tmp: TempNames)
    returns (script: seq<Cmd>, tmpSets: map<string, string>)
    requires forall i :: 0 <= i < |setNames| ==> setNames[i] in sets
    ensures script == SetScripts(setNames, sets, tmp, {})
    ensures tmpSets.Keys == OptionsTo(setNames, |setNames|, sets)
    ensures forall o :: o in tmpSets ==> tmpSets[o] == Tmp(tmp, o)
  {
    script, tmpSets := [], map[];
    for i := 0 to |setNames|
      invariant Collected(setNames, i, sets, tmp, script, tmpSets)
    {
      ghost var (before, beforeSets) := (script, tmpSets);
      script, tmpSets := EmitSet(script, tmpSets, setNames[i], sets[setNames[i]], tmp);
      CollectStep(setNames, i, sets, tmp, before, beforeSets, script, tmpSets);
    }
    ScriptsFromIndex(setNames, 0, sets, tmp, {});
    assert setNames[0..] == setNames;
  }

  lemma TempsFromMap(temps: seq<string>, names: seq<string>, sets: map<string, SetDef>, tmp: TempNames,
                     tmpSets: map<string, string>)
    requires forall i :: 0 <= i < |names| ==> names[i] in sets
    requires tmpSets.Keys == OptionsTo(names, |names|, sets)
    requires forall o :: o in tmpSets ==> tmpSets[o] == Tmp(tmp, o)
    requires Distinct(temps) && Elements(temps) == tmpSets.Values
    ensures TempsOf(temps, names, sets, tmp)
  {
    forall j | 0 <= j < |temps|
      ensures IsTemp(temps[j], names, sets, tmp)
    {
      assert temps[j] in Elements(temps);
      var o :| o in tmpSets && tmpSets[o] == temps[j];
      assert IsOption(o, names, sets);
    }
    forall i | 0 <= i < |names|
      ensures Tmp(tmp, Options(sets, names[i])) in temps
    {
      assert tmpSets[Options(sets, names[i])] in Elements(temps);
    }
  }

  // ---- the generated script, from end to end ------------------------------------------------------------

  /** Different options have different temporary sets. */
  ghost predicate OwnTemps(sets: map<string, SetDef>, tmp: TempNames) {
    forall n, m :: n in sets && m in sets && Tmp(tmp, Options(sets, n)) == Tmp(tmp, Options(sets, m)) ==>
      Options(sets, n) == Options(sets, m)
  }

  /** Sets and temporary sets that exist have the options given here, and no set has the name of a temporary one. */
  ghost predicate KernelFits(k: Kernel, sets: map<string, SetDef>, tmp: TempNames) {
    && (forall n :: n in sets ==> Fits(k, n, Options(sets, n), Tmp(tmp, Options(sets, n)), false))
    && (forall n, m :: n in sets && m in sets ==> Tmp(tmp, Options(sets, n)) != m)
  }

  ghost predicate Unrelated(x: string, sets: map<string, SetDef>, tmp: TempNames) {
    x !in sets && forall n :: n in sets ==> x != Tmp(tmp, Options(sets, n))
  }

  /** The script runs through; every set then holds exactly its entries, no temporary set is left, and every other
      set is as it was. */
  ghost predicate Restores(k: Kernel, script: seq<Cmd>, sets: map<string, SetDef>, tmp: TempNames) {
    && Run(k, script).Some?
    && var r := Run(k, script).value;
       && (forall n :: n in sets ==> n in r && r[n] == Holds(sets[n]) && Tmp(tmp, Options(sets, n)) !in r)
       && (forall n :: n in sets ==> MadeFrom(r[n], sets[n]))
       && (forall x :: Unrelated(x, sets, tmp) ==> SameAt(k, r, x))
  }

  /** After any number of commands no set is gone, and each holds its old content or exactly its new one. */
  ghost predicate OldOrNew(k: Kernel, script: seq<Cmd>, i: nat, sets: map<string, SetDef>)
    requires i <= |script|
  {
    && Run(k, script[..i]).Some?
    && var r := Run(k, script[..i]).value;
       forall n :: n in sets ==>
         && (n in k ==> n in r)
         && (n in r ==> r[n].content == Before(k, n) || r[n] == Holds(sets[n]))
  }

  lemma ScriptRestores(k: Kernel, names: seq<string>, sets: map<string, SetDef>, tmp: TempNames, temps: seq<string>)
    requires Distinct(names) && Elements(names) == sets.Keys && (forall i :: 0 <= i < |names| ==> names[i] in sets)
    requires OwnTemps(sets, tmp) && KernelFits(k, sets, tmp) && TempsOf(temps, names, sets, tmp)
    ensures Restores(k, FullScript(names, sets, tmp, temps), sets, tmp)
  {
    assert Compatible(k, names, sets, tmp, {});
    RestoreCorrect(k, names, sets, tmp, temps);
    forall n | n in sets
      ensures (exists i :: 0 <= i < |names| && names[i] == n) && MadeFrom(Holds(sets[n]), sets[n])
    {
      assert n in Elements(names);
      HoldsMadeFrom(sets[n]);
    }
    forall x | Unrelated(x, sets, tmp)
      ensures Foreign(x, names, sets, tmp)
    {
    }
  }

  lemma ScriptOldOrNew(k: Kernel, names: seq<string>, sets: map<string, SetDef>, tmp: TempNames, temps: seq<string>,
                       i: nat)
    requires Distinct(names) && Elements(names) == sets.Keys && (forall i :: 0 <= i < |names| ==> names[i] in sets)
    requires OwnTemps(sets, tmp) && KernelFits(k, sets, tmp) && TempsOf(temps, names, sets, tmp)
    requires i <= |FullScript(names, sets, tmp, temps)|
    ensures OldOrNew(k, FullScript(names, sets, tmp, temps), i, sets)
  {
    assert Compatible(k, names, sets, tmp, {});
    RestoreAtomic(k, names, sets, tmp, temps, i);
    forall n | n in sets
      ensures exists i :: 0 <= i < |names| && names[i] == n
    {
      assert n in Elements(names);
    }
  }

  /** The script generated for the sets, executed from any kernel state that fits, restores all of them, each one at
      a single stroke. */
  method BuildIPSetRestore(sets: map<string, SetDef>, tmp: TempNames) returns (script: seq<Cmd>)
    requires OwnTemps(sets, tmp)
    ensures forall k :: KernelFits(k, sets, tmp) ==> Restores(k, script, sets, tmp)
    ensures forall k, i :: KernelFits(k, sets, tmp) && 0 <= i <= |script| ==> OldOrNew(k, script, i, sets)
  {
    var setNames := SortStrings(sets.Keys);
    assert forall i :: 0 <= i < |setNames| ==> setNames[i] in Elements(setNames);
    var tmpSets;
    script, tmpSets := CollectScripts(setNames, sets, tmp);
    var setsToDestroy := SortStrings(tmpSets.Values);
    TempsFromMap(setsToDestroy, setNames, sets, tmp, tmpSets);
    script := script + Destroys(setsToDestroy);
    forall k | KernelFits(k, sets, tmp)
      ensures Restores(k, script, sets, tmp)
    {
      ScriptRestores(k, setNames, sets, tmp, setsToDestroy);
    }
    forall k, i | KernelFits(k, sets, tmp) && 0 <= i <= |script|
      ensures OldOrNew(k, script, i, sets)
    {
      ScriptOldOrNew(k, setNames, sets, tmp, setsToDestroy, i);
    }
  }

  // ---- refreshing one set -----------------------------------------------------------------------------

  /** The commands of RefreshWithBuiltinOptions: a temporary set is created if it does not exist, filled, swapped
      with the set and destroyed. It is not flushed. */
  function RefreshScript(k: Kernel, name: string, t: string, def: SetDef): (c: seq<Cmd>) {
    (if t in k then [] else [Create(t, Join(def.options))]) + Adds(t, def.entries) + [Swap(name, t), Destroy(t)]
  }

  ghost function Elems(entries: seq<Entry>): set<string> {
    set e | e in entries :: e.elem
  }

  lemma {:induction false} FilledFrom(c: Content, entries: seq<Entry>)
    ensures Filled(c, entries) == c + Filled(map[], entries)
    ensures Filled(map[], entries).Keys == Elems(entries)
    decreases |entries|
  {
    if entries != [] {
      var first := entries[0];
      FilledFrom(c[first.elem := first.ext], entries[1..]);
      FilledFrom(map[first.elem := first.ext], entries[1..]);
      assert Elems(entries) == {first.elem} + Elems(entries[1..]);
    }
  }

  /** The kernel after a refresh: what was left in the temporary set is still there. */
  function Refreshed(k: Kernel, name: string, t: string, def: SetDef): (r: Kernel) {
    (k - {t})[name := KernelSet(Join(def.options), Filled(Before(k, t), def.entries))]
  }

  lemma RunOne(k: Kernel, c: Cmd)
    ensures Run(k, [c]) == Exec(k, c)
  {
    assert [c][1..] == [];
  }

  lemma RunTwo(k: Kernel, c: Cmd, d: Cmd)
    ensures Run(k, [c, d]) == if Exec(k, c).Some? then Exec(Exec(k, c).value, d) else None
  {
    assert [c, d][1..] == [d];
    if Exec(k, c).Some? {
      RunOne(Exec(k, c).value, d);
    }
  }

  lemma SwapDestroy(k: Kernel, name: string, t: string)
    requires name in k && t in k && name != t && k[name].options == k[t].options
    ensures Run(k, [Swap(name, t), Destroy(t)]) == Some((k - {t})[name := k[t]])
  {
    RunTwo(k, Swap(name, t), Destroy(t));
    assert k[name := k[t]][t := k[name]] - {t} == (k - {t})[name := k[t]];
  }

  lemma RunRefresh(k: Kernel, name: string, t: string, def: SetDef)
    requires t != name && name in k && k[name].options == Join(def.options)
    requires t in k ==> k[t].options == Join(def.options)
    ensures Run(k, RefreshScript(k, name, t, def)) == Some(Refreshed(k, name, t, def))
  {
    var o := Join(def.options);
    var prep := if t in k then [] else [Create(t, o)];
    var k1 := if t in k then k else k[t := KernelSet(o, map[])];
    var k2 := k1[t := KernelSet(o, Filled(Before(k, t), def.entries))];
    if t !in k {
      RunOne(k, Create(t, o));
    }
    RunAdds(k1, t, def.entries);
    RunAppend(k, prep, Adds(t, def.entries));
    RunAppend(k, prep + Adds(t, def.entries), [Swap(name, t), Destroy(t)]);
    SwapDestroy(k2, name, t);
    assert (k2 - {t})[name := k2[t]] == Refreshed(k, name, t, def);
  }

  lemma MergeSame(a: Content, b: Content)
    ensures a + b == b <==> a.Keys <= b.Keys
  {
    assert (a + b).Keys == a.Keys + b.Keys;
  }

  /** The refreshed set holds exactly the new entries if and only if a temporary set left behind by an earlier
      crash held none but elements that are added again. */
  lemma RefreshExact(k: Kernel, name: string, t: string, def: SetDef)
    requires t != name && name in k && k[name].options == Join(def.options)
    requires t in k ==> k[t].options == Join(def.options)
    ensures Run(k, RefreshScript(k, name, t, def)).Some?
    ensures var r := Run(k, RefreshScript(k, name, t, def)).value;
      && name in r && t !in r
      && (r[name] == Holds(def) <==> Before(k, t).Keys <= Elems(def.entries))
      && (forall x :: x != name && x != t ==> SameAt(k, r, x))
  {
    RunRefresh(k, name, t, def);
    FilledFrom(Before(k, t), def.entries);
    MergeSame(Before(k, t), Filled(map[], def.entries));
  }

  /** For example, a left-over temporary set with one element ends up in a set that should be empty. */
  lemma RefreshLeftOver()
    ensures var k := map["s" := KernelSet("o", map[]), "t" := KernelSet("o", map["10.0.0.1" := ""])];
      var def := SetDef([], ["o"]);
      && Run(k, RefreshScript(k, "s", "t", def)).Some?
      && "s" in Run(k, RefreshScript(k, "s", "t", def)).value
      && Run(k, RefreshScript(k, "s", "t", def)).value["s"] != Holds(def)
  {
    var k := map["s" := KernelSet("o", map[]), "t" := KernelSet("o", map["10.0.0.1" := ""])];
    var def := SetDef([], ["o"]);
    RefreshExact(k, "s", "t", def);
    assert "10.0.0.1" in Before(k, "t").Keys;
  }
}
