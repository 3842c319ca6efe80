/** The key that tells effects apart, and the fold that counts the effects of one key. */
module EffectIdentity {
  import opened Json
  import opened Sequences
  import opened StableTexts

  /** An effect's fields, apart from how many sites produced it; none listed means one. */
  datatype Effect = Effect(fields: Loose, count: Option<nat>)

  const NOT_IN_KEY := {"groupId", "count", "location"}

  function KeptFields(keys: seq<string>, values: seq<Loose>): (r: (seq<string>, seq<Loose>))
    ensures |r.0| == |r.1|
  {
    if keys == [] || values == [] then ([], []) else
      var rest := KeptFields(keys[1..], values[1..]);
      if keys[0] in NOT_IN_KEY then rest else ([keys[0]] + rest.0, [values[0]] + rest.1)
  }

  /** Drops the fields in `NOT_IN_KEY` from the outermost record; inner records keep theirs. */
  function Identifying(fields: Loose): Loose {
    if fields.Record? then Record(KeptFields(fields.keys, fields.values).0, KeptFields(fields.keys, fields.values).1)
      else fields
  }

  function EffectKey(effect: Effect): string {
    StableJson(Identifying(effect.fields))
  }

  lemma {:induction false} KeptMembers(keys: seq<string>, values: seq<Loose>)
    requires |keys| == |values|
    ensures var r := KeptFields(keys, values);
            && (forall k :: k in r.0 ==> k in keys)
            && (Distinct(keys) ==> Distinct(r.0))
            && (forall v :: v in r.1 ==> v in values)
  {
    if keys != [] {
      KeptMembers(keys[1..], values[1..]);
      assert keys == [keys[0]] + keys[1..] && values == [values[0]] + values[1..];
      var rest := KeptFields(keys[1..], values[1..]);
      if Distinct(keys) {
        assert Distinct(keys[1..]);
        assert keys[0] !in keys[1..];
      }
    }
  }

  lemma IdentifyingSound(fields: Loose)
    requires Sound(fields)
    ensures Sound(Identifying(fields))
  {
    if fields.Record? {
      KeptMembers(fields.keys, fields.values);
      var r := KeptFields(fields.keys, fields.values);
      forall i | 0 <= i < |r.1|
        ensures Sound(r.1[i])
      {
        assert r.1[i] in r.1;
      }
    }
  }

  /** A field that says which sites an effect comes from, or how many. */
  predicate IsSite(name: string) {
    name == "groupId" || name == "count" || name == "location"
  }

  /** Where a field that is kept goes. */
  lemma {:induction false} KeptTo(keys: seq<string>, values: seq<Loose>, i: nat) returns (k: nat)
    requires |keys| == |values| && i < |keys| && !IsSite(keys[i])
    ensures var (kept, at) := KeptFields(keys, values);
            k < |kept| && k < |at| && kept[k] == keys[i] && at[k] == values[i]
  {
    if i == 0 {
      k := 0;
    } else {
      k := KeptTo(keys[1..], values[1..], i - 1);
      if !IsSite(keys[0]) { k := k + 1; }
    }
  }

  /** Where a kept field comes from. */
  lemma {:induction false} KeptFrom(keys: seq<string>, values: seq<Loose>, k: nat) returns (i: nat)
    requires |keys| == |values| && k < |KeptFields(keys, values).0|
    ensures var (kept, at) := KeptFields(keys, values);
            i < |keys| && k < |at| && kept[k] == keys[i] && at[k] == values[i] && !IsSite(keys[i])
  {
    if IsSite(keys[0]) {
      i := KeptFrom(keys[1..], values[1..], k);
      i := i + 1;
    } else if k == 0 {
      i := 0;
    } else {
      i := KeptFrom(keys[1..], values[1..], k - 1);
      i := i + 1;
    }
  }

  /** Each field, but for those that say a site where `but`, is in the other record with the same value. */
  predicate AllHold(keys: seq<string>, values: seq<Loose>, other: seq<string>, values': seq<Loose>, but: bool) {
    forall i :: 0 <= i < |keys| && i < |values| && !(but && IsSite(keys[i])) && !values[i].Absent? ==>
      HoldsSame(values[i], keys[i], other, values')
  }

  predicate AllThere(keys: seq<string>, values: seq<Loose>, other: seq<string>, values': seq<Loose>, but: bool) {
    forall i :: 0 <= i < |keys| && i < |values| && !(but && IsSite(keys[i])) && !values[i].Absent? ==>
      Has(keys[i], other, values')
  }

  /** The effects' records agree on every field but the three, undefined ones left out. */
  predicate SameBesidesSite(a: Loose, b: Loose) {
    if a.Record? && b.Record? then
      AllHold(a.keys, a.values, b.keys, b.values, true) && AllThere(b.keys, b.values, a.keys, a.values, true)
    else Same(a, b)
  }

  lemma KeptHoldsSame(v: Loose, key: string, keys: seq<string>, values: seq<Loose>)
    requires |keys| == |values| && !IsSite(key)
    ensures HoldsSame(v, key, KeptFields(keys, values).0, KeptFields(keys, values).1) <==>
            HoldsSame(v, key, keys, values)
    ensures Has(key, KeptFields(keys, values).0, KeptFields(keys, values).1) <==> Has(key, keys, values)
  {
    var (kept, at) := KeptFields(keys, values);
    forall j | 0 <= j < |keys| && keys[j] == key
      ensures exists k :: 0 <= k < |kept| && k < |at| && kept[k] == key && at[k] == values[j]
    {
      var k := KeptTo(keys, values, j);
    }
    forall k | 0 <= k < |kept| && kept[k] == key
      ensures exists j :: 0 <= j < |keys| && j < |values| && keys[j] == key && values[j] == at[k]
    {
      var j := KeptFrom(keys, values, k);
    }
  }

  lemma KeptAllHold(keys: seq<string>, values: seq<Loose>, other: seq<string>, values': seq<Loose>)
    requires |keys| == |values| && |other| == |values'|
    ensures var (kept, at) := KeptFields(keys, values);
            var (others, there) := KeptFields(other, values');
            AllHold(kept, at, others, there, false) <==> AllHold(keys, values, other, values', true)
  {
    var (kept, at) := KeptFields(keys, values);
    var (others, there) := KeptFields(other, values');
    if AllHold(kept, at, others, there, false) {
      forall i | 0 <= i < |keys| && !IsSite(keys[i]) && !values[i].Absent?
        ensures HoldsSame(values[i], keys[i], other, values')
      {
        var k := KeptTo(keys, values, i);
        assert HoldsSame(at[k], kept[k], others, there);
        KeptHoldsSame(values[i], keys[i], other, values');
      }
    }
    if AllHold(keys, values, other, values', true) {
      forall k | 0 <= k < |kept| && k < |at| && !at[k].Absent?
        ensures HoldsSame(at[k], kept[k], others, there)
      {
        var i := KeptFrom(keys, values, k);
        assert HoldsSame(values[i], keys[i], other, values');
        KeptHoldsSame(at[k], kept[k], other, values');
      }
    }
  }

  lemma KeptAllThere(keys: seq<string>, values: seq<Loose>, other: seq<string>, values': seq<Loose>)
    requires |keys| == |values| && |other| == |values'|
    ensures var (kept, at) := KeptFields(keys, values);
            var (others, there) := KeptFields(other, values');
            AllThere(kept, at, others, there, false) <==> AllThere(keys, values, other, values', true)
  {
    var (kept, at) := KeptFields(keys, values);
    var (others, there) := KeptFields(other, values');
    if AllThere(kept, at, others, there, false) {
      forall i | 0 <= i < |keys| && !IsSite(keys[i]) && !values[i].Absent?
        ensures Has(keys[i], other, values')
      {
        var k := KeptTo(keys, values, i);
        assert Has(kept[k], others, there);
        KeptHoldsSame(values[i], keys[i], other, values');
      }
    }
    if AllThere(keys, values, other, values', true) {
      forall k | 0 <= k < |kept| && k < |at| && !at[k].Absent?
        ensures Has(kept[k], others, there)
      {
        var i := KeptFrom(keys, values, k);
        assert Has(keys[i], other, values');
        KeptHoldsSame(at[k], kept[k], other, values');
      }
    }
  }

  lemma IdentifyingSame(a: Loose, b: Loose)
    requires Sound(a) && Sound(b)
    ensures Same(Identifying(a), Identifying(b)) <==> SameBesidesSite(a, b)
  {
    if a.Record? && b.Record? {
      KeptAllHold(a.keys, a.values, b.keys, b.values);
      KeptAllThere(b.keys, b.values, a.keys, a.values);
    }
  }

  /** Two effects have one key exactly when they are the same but for where, and from how many sites, they come. */
  lemma KeysAgree(a: Effect, b: Effect)
    requires Sound(a.fields) && Sound(b.fields)
    ensures EffectKey(a) == EffectKey(b) <==> SameBesidesSite(a.fields, b.fields)
  {
    IdentifyingSound(a.fields);
    IdentifyingSound(b.fields);
    StableTextsAgree(Identifying(a.fields), Identifying(b.fields));
    IdentifyingSame(a.fields, b.fields);
  }

  // -------------------------------------------------------------------- folding

  function CountOf(effect: Effect): nat {
    if effect.count.Some? then effect.count.value else 1
  }

  function OneMore(effect: Effect): Effect {
    effect.(count := Some(CountOf(effect) + 1))
  }

  /** The key of each effect, which may depend on where it is. */
  function KeysAt(keyOf: (Effect, nat) -> string, effects: seq<Effect>): (r: seq<string>)
    ensures |r| == |effects| && forall i :: 0 <= i < |r| ==> r[i] == keyOf(effects[i], i)
  {
    if effects == [] then [] else
      var n := |effects| - 1;
      KeysAt(keyOf, effects[..n]) + [keyOf(effects[n], n)]
  }

  /** One more effect: a new entry, or one more for the entry of its key. `firsts` are the keys of the entries. */
  function OneFolded(firsts: seq<string>, kept: seq<Effect>, key: string, effect: Effect): (r: seq<Effect>)
    requires |firsts| == |kept|
    ensures |r| == |kept| + if key in firsts then 0 else 1
  {
    var at := IndexOf(firsts, key);
    if at == |kept| then kept + [effect] else kept[at := OneMore(kept[at])]
  }

  /** The effects folded by their keys; the entries are those of `Unique(keys)`. */
  function Folded(keys: seq<string>, effects: seq<Effect>): (r: seq<Effect>)
    requires |keys| == |effects|
    ensures |r| == |Unique(keys)|
  {
    if keys == [] then [] else
      var n := |keys| - 1;
      OneFolded(Unique(keys[..n]), Folded(keys[..n], effects[..n]), keys[n], effects[n])
  }

  lemma FoldedSnoc(keys: seq<string>, effects: seq<Effect>, key: string, effect: Effect)
    requires |keys| == |effects|
    ensures Folded(keys + [key], effects + [effect]) == OneFolded(Unique(keys), Folded(keys, effects), key, effect)
  {
    assert (keys + [key])[..|keys|] == keys && (effects + [effect])[..|effects|] == effects;
  }

  /** Each key, with the place of its entry. */
  ghost predicate FirstAt(firsts: seq<string>, firstAt: map<string, nat>) {
    forall key :: (key in firstAt <==> key in firsts) && (key in firstAt ==> firstAt[key] == IndexOf(firsts, key))
  }

  lemma FirstAtAdded(keys: seq<string>, firstAt: map<string, nat>, key: string)
    requires FirstAt(Unique(keys), firstAt)
    ensures FirstAt(Unique(keys + [key]), if key in firstAt then firstAt else firstAt[key := |Unique(keys)|])
  {
    UniqueMore(keys, key);
    forall other
      ensures IndexOf(Unique(keys) + [key], other) ==
              if other in Unique(keys) then IndexOf(Unique(keys), other)
              else if key == other then |Unique(keys)| else |Unique(keys)| + 1
    {
      IndexInLonger(Unique(keys), key, other);
    }
  }

  lemma FoldedOneMore(keys: seq<string>, effects: seq<Effect>, i: nat, firstAt: map<string, nat>)
    requires i < |keys| == |effects| && FirstAt(Unique(keys[..i]), firstAt)
    ensures FirstAt(Unique(keys[..i + 1]),
                    if keys[i] in firstAt then firstAt else firstAt[keys[i] := |Folded(keys[..i], effects[..i])|])
    ensures keys[i] in firstAt ==> firstAt[keys[i]] < |Folded(keys[..i], effects[..i])|
    ensures var kept := Folded(keys[..i], effects[..i]);
            Folded(keys[..i + 1], effects[..i + 1]) ==
            if keys[i] in firstAt then kept[firstAt[keys[i]] := OneMore(kept[firstAt[keys[i]]])]
              else kept + [effects[i]]
  {
    assert keys[..i + 1] == keys[..i] + [keys[i]] && effects[..i + 1] == effects[..i] + [effects[i]];
    FoldedSnoc(keys[..i], effects[..i], keys[i], effects[i]);
    FirstAtAdded(keys[..i], firstAt, keys[i]);
  }

  /** The loop with its map from keys to places, proved equal to the recursive `Folded` for any way to give keys. */
  method FoldRepeatedEffects(effects: seq<Effect>, keyOf: (Effect, nat) -> string) returns (kept: seq<Effect>)
    ensures kept == Folded(KeysAt(keyOf, effects), effects)
  {
    kept := [];
    var firstAt: map<string, nat> := map[];
    ghost var keys := KeysAt(keyOf, effects);
    for index := 0 to |effects|
      invariant kept == Folded(keys[..index], effects[..index])
      invariant FirstAt(Unique(keys[..index]), firstAt)
    {
      FoldedOneMore(keys, effects, index, firstAt);
      var key := keyOf(effects[index], index);
      if key !in firstAt {
        firstAt := firstAt[key := |kept|];
        kept := kept + [effects[index]];
        continue;
      }
      var at := firstAt[key];
      kept := kept[at := OneMore(kept[at])];
    }
    assert keys[..|effects|] == keys && effects[..|effects|] == effects;
  }

  // ----------------------------------------------------------- what folding keeps

  /** One entry a key, and an entry comes before another exactly when its key appears first. */
  lemma FoldedKeys(keys: seq<string>, effects: seq<Effect>)
    requires |keys| == |effects|
    ensures |Folded(keys, effects)| == |Unique(keys)|
    ensures Distinct(Unique(keys)) && forall key :: key in Unique(keys) <==> key in keys
    ensures forall i, j :: 0 <= i < |Unique(keys)| && 0 <= j < |Unique(keys)| ==>
              (i < j <==> IndexOf(keys, Unique(keys)[i]) < IndexOf(keys, Unique(keys)[j]))
  {
    UniqueInOrder(keys);
  }

  /** The entry of a key: its first effect, counting the times the key appears. */
  function EntryOf(keys: seq<string>, effects: seq<Effect>, key: string): Effect
    requires |keys| == |effects| && key in keys
  {
    var first, n := effects[IndexOf(keys, key)], multiset(keys)[key];
    if n == 1 then first else Effect(first.fields, Some(CountOf(first) + n - 1))
  }

  lemma EntrySnoc(keys: seq<string>, effects: seq<Effect>, next: string, effect: Effect, key: string)
    requires |keys| == |effects| && key in keys
    ensures EntryOf(keys + [next], effects + [effect], key) ==
            if next == key then OneMore(EntryOf(keys, effects, key)) else EntryOf(keys, effects, key)
  {
    IndexInLonger(keys, next, key);
    assert multiset(keys)[key] >= 1;
  }

  lemma EntryOfNew(keys: seq<string>, effects: seq<Effect>, key: string, effect: Effect)
    requires |keys| == |effects| && key !in keys
    ensures EntryOf(keys + [key], effects + [effect], key) == effect
  {
    IndexInLonger(keys, key, key);
    assert multiset(keys)[key] == 0;
  }

  /** Each entry is `EntryOf` its key. */
  lemma {:induction false} FoldedEntry(keys: seq<string>, effects: seq<Effect>, k: nat)
    requires |keys| == |effects| && k < |Unique(keys)|
    ensures Folded(keys, effects)[k] == EntryOf(keys, effects, Unique(keys)[k])
  {
    var n := |keys| - 1;
    var keys', effects' := keys[..n], effects[..n];
    assert keys == keys' + [keys[n]] && effects == effects' + [effects[n]];
    FoldedSnoc(keys', effects', keys[n], effects[n]);
    UniqueMore(keys', keys[n]);
    if k < |Unique(keys')| {
      FoldedEntry(keys', effects', k);
      assert Unique(keys)[k] == Unique(keys')[k] && Unique(keys')[k] in Unique(keys');
      EntrySnoc(keys', effects', keys[n], effects[n], Unique(keys')[k]);
      OnlyIndex(Unique(keys'), k);
    } else {
      EntryOfNew(keys', effects', keys[n], effects[n]);
    }
  }

  lemma OnlyIndex(keys: seq<string>, k: nat)
    requires Distinct(keys) && k < |keys|
    ensures IndexOf(keys, keys[k]) == k
  {
  }

  function Total(effects: seq<Effect>): nat {
    if effects == [] then 0 else Total(effects[..|effects| - 1]) + CountOf(effects[|effects| - 1])
  }

  /** The effects that are not the first of their key. */
  function Repeats(keys: seq<string>, effects: seq<Effect>): (r: seq<Effect>)
    requires |keys| == |effects|
    ensures forall e :: e in r ==> e in effects
  {
    if keys == [] then [] else
      var n := |keys| - 1;
      assert effects == effects[..n] + [effects[n]];
      if keys[n] in keys[..n] then Repeats(keys[..n], effects[..n]) + [effects[n]] else Repeats(keys[..n], effects[..n])
  }

  lemma TotalOneMore(effects: seq<Effect>, effect: Effect)
    ensures Total(effects + [effect]) == Total(effects) + CountOf(effect)
  {
    assert (effects + [effect])[..|effects|] == effects;
  }

  lemma {:induction false} TotalUpdated(kept: seq<Effect>, at: nat, e: Effect)
    requires at < |kept|
    ensures Total(kept[at := e]) == Total(kept) - CountOf(kept[at]) + CountOf(e)
  {
    var last := |kept| - 1;
    if at < last {
      TotalUpdated(kept[..last], at, e);
      assert kept[at := e][..last] == kept[..last][at := e];
    } else {
      assert kept[at := e][..last] == kept[..last];
    }
  }

  lemma TotalOneFolded(firsts: seq<string>, kept: seq<Effect>, key: string, effect: Effect)
    requires |firsts| == |kept|
    ensures Total(OneFolded(firsts, kept, key, effect)) == Total(kept) + if key in firsts then 1 else CountOf(effect)
  {
    var at := IndexOf(firsts, key);
    if at < |kept| { TotalUpdated(kept, at, OneMore(kept[at])); } else { TotalOneMore(kept, effect); }
  }

  /** Folding counts each repeat once, so the total changes by what the repeats' own counts say beyond that. */
  lemma {:induction false} FoldedTotal(keys: seq<string>, effects: seq<Effect>)
    requires |keys| == |effects|
    ensures Total(Folded(keys, effects)) + Total(Repeats(keys, effects)) == Total(effects) + |Repeats(keys, effects)|
  {
    if keys != [] {
      var n := |keys| - 1;
      FoldedTotal(keys[..n], effects[..n]);
      TotalOneFolded(Unique(keys[..n]), Folded(keys[..n], effects[..n]), keys[n], effects[n]);
      TotalOneMore(Repeats(keys[..n], effects[..n]), effects[n]);
    }
  }

  predicate Counted(effects: seq<Effect>) {
    forall e :: e in effects ==> CountOf(e) >= 1
  }

  lemma {:induction false} TotalOfOnes(effects: seq<Effect>)
    requires Counted(effects)
    ensures Total(effects) >= |effects|
    ensures Total(effects) == |effects| <==> forall e :: e in effects ==> CountOf(e) == 1
  {
    if effects != [] {
      var front, last := effects[..|effects| - 1], effects[|effects| - 1];
      assert effects == front + [last];
      TotalOfOnes(front);
    }
  }

  /** The total of the counts is kept exactly when no repeat had a count of its own beyond one. */
  lemma TotalIsKept(keys: seq<string>, effects: seq<Effect>)
    requires |keys| == |effects| && Counted(effects)
    ensures Total(Folded(keys, effects)) == Total(effects) <==>
            forall e :: e in Repeats(keys, effects) ==> CountOf(e) == 1
  {
    FoldedTotal(keys, effects);
    TotalOfOnes(Repeats(keys, effects));
  }

  lemma FoldedOfOne(key: string, effect: Effect)
    ensures Folded([key], [effect]) == [effect]
  {
    assert [key][..0] == [] && [effect][..0] == [];
  }

  lemma FoldedOfTwo(key: string, first: Effect, second: Effect)
    ensures Folded([key] + [key], [first] + [second]) == [OneMore(first)]
  {
    FoldedOfOne(key, first);
    FoldedSnoc([key], [first], key, second);
    UniqueOfDistinct([key]);
  }

  lemma TotalOfTwo(first: Effect, second: Effect)
    ensures Total([first] + [second]) == CountOf(first) + CountOf(second) && Total([first]) == CountOf(first)
  {
    assert [first][..0] == [];
    TotalOneMore([first], second);
  }

  /** Two sites of one key, the second already counted twice: three before folding, two after. */
  lemma CountIsLost(key: string, fields: Loose)
    ensures var keys, effects := [key] + [key], [Effect(fields, None)] + [Effect(fields, Some(2))];
            && Total(effects) == 3
            && Folded(keys, effects) == [Effect(fields, Some(2))]
            && Total(Folded(keys, effects)) == 2
  {
    FoldedOfTwo(key, Effect(fields, None), Effect(fields, Some(2)));
    TotalOfTwo(Effect(fields, None), Effect(fields, Some(2)));
    TotalOfTwo(Effect(fields, Some(2)), Effect(fields, Some(2)));
  }

  // ----------------------------------------------------------- keys read off the effects

  /** A key that does not depend on the count, as `EffectKey` does not. */
  ghost predicate IgnoresCount(keyOf: Effect -> string) {
    forall e: Effect, count :: keyOf(Effect(e.fields, count)) == keyOf(e)
  }

  lemma EffectKeyIgnoresCount()
    ensures IgnoresCount(EffectKey)
  {
  }

  function Keys(keyOf: Effect -> string, effects: seq<Effect>): (r: seq<string>)
    ensures |r| == |effects| && forall i :: 0 <= i < |r| ==> r[i] == keyOf(effects[i])
  {
    KeysAt((e, _) => keyOf(e), effects)
  }

  /** The folded effects keep the keys of their entries. */
  lemma FoldedKeepsKeys(keyOf: Effect -> string, effects: seq<Effect>)
    requires IgnoresCount(keyOf)
    ensures Keys(keyOf, Folded(Keys(keyOf, effects), effects)) == Unique(Keys(keyOf, effects))
  {
    var keys := Keys(keyOf, effects);
    forall k | 0 <= k < |Unique(keys)|
      ensures keyOf(Folded(keys, effects)[k]) == Unique(keys)[k]
    {
      FoldedEntry(keys, effects, k);
      assert Unique(keys)[k] in Unique(keys);
      var first := effects[IndexOf(keys, Unique(keys)[k])];
      assert keyOf(Effect(first.fields, Folded(keys, effects)[k].count)) == keyOf(first);
    }
  }

  lemma {:induction false} FoldedDistinct(keys: seq<string>, effects: seq<Effect>)
    requires |keys| == |effects| && Distinct(keys)
    ensures Folded(keys, effects) == effects
  {
    if keys != [] {
      var n := |keys| - 1;
      assert effects == effects[..n] + [effects[n]];
      FoldedDistinct(keys[..n], effects[..n]);
      UniqueOfDistinct(keys[..n]);
    }
  }

  /** Folding what was folded changes nothing. */
  lemma FoldedTwice(keyOf: Effect -> string, effects: seq<Effect>)
    requires IgnoresCount(keyOf)
    ensures var folded := Folded(Keys(keyOf, effects), effects);
            Folded(Keys(keyOf, folded), folded) == folded
  {
    FoldedKeepsKeys(keyOf, effects);
    FoldedDistinct(Unique(Keys(keyOf, effects)), Folded(Keys(keyOf, effects), effects));
  }

  /** By `EffectKey`: one entry a key, in the order the keys first appear, and folding again changes nothing. */
  lemma FoldedByEffectKey(effects: seq<Effect>)
    ensures var folded := Folded(Keys(EffectKey, effects), effects);
            && Keys(EffectKey, folded) == Unique(Keys(EffectKey, effects))
            && Folded(Keys(EffectKey, folded), folded) == folded
  {
    EffectKeyIgnoresCount();
    FoldedKeepsKeys(EffectKey, effects);
    FoldedTwice(EffectKey, effects);
  }
}
