/** The merge of model lists in packages/cli/src/commands/command-helpers.ts. */
module ModelMerge {
  import opened Collections

  /** A model; `fields` holds everything besides the three fields that are treated specially. */
  datatype Model = Model(id: string, name: string, supportsThinking: Option<bool>, fields: map<string, string>)

  function Or<T>(a: Option<T>, b: Option<T>): Option<T> {
    if a.Some? then a else b
  }

  /** `{ ...existing, ...model, name: existing.name }` with the first defined `supportsThinking`. */
  function Update(existing: Model, model: Model): Model {
    var supportsThinking := Or(existing.supportsThinking, model.supportsThinking);
    Model(model.id, existing.name, supportsThinking, existing.fields + model.fields)
  }

  // ---------------------------------------------------------------- what a list of models amounts to

  function Init(models: seq<Model>): seq<Model>
    requires models != []
  {
    models[..|models| - 1]
  }

  function Last(models: seq<Model>): Model
    requires models != []
  {
    models[|models| - 1]
  }

  /** The ids in the order of their first occurrences. */
  function Ids(models: seq<Model>): seq<string> {
    if models == [] then [] else WithId(Ids(Init(models)), Last(models).id)
  }

  function WithId(ids: seq<string>, id: string): seq<string> {
    if id in ids then ids else ids + [id]
  }

  function Combine(a: Option<Model>, b: Option<Model>): Option<Model> {
    if a.None? then b else if b.None? then a else Some(Update(a.value, b.value))
  }

  /** All models of one id taken together. */
  function At(models: seq<Model>, id: string): Option<Model> {
    if models == [] then None
    else
      var before := At(Init(models), id);
      if Last(models).id == id then Combine(before, Some(Last(models))) else before
  }

  /** One model for each id. */
  function Merged(models: seq<Model>): seq<Model> {
    seq(|Ids(models)|, i requires 0 <= i < |Ids(models)| =>
      IdsAreFound(models, Ids(models)[i]);
      At(models, Ids(models)[i]).value)
  }

  lemma {:induction false} IdsAreFound(models: seq<Model>, id: string)
    ensures id in Ids(models) <==> At(models, id).Some?
    ensures At(models, id).Some? ==> At(models, id).value.id == id
  {
    if models != [] {
      IdsAreFound(Init(models), id);
    }
  }

  // ---------------------------------------------------------------- the program

  class Merger {
    var merged: map<string, Model>
    var order: seq<string>
    ghost var models: seq<Model>

    ghost predicate Valid()
      reads this
    {
      && order == Ids(models)
      && (forall id :: id in merged <==> At(models, id).Some?)
      && (forall id :: id in merged ==> At(models, id) == Some(merged[id]))
    }

    constructor ()
      ensures Valid() && models == []
    {
      merged, order, models := map[], [], [];
    }

    /** `list.forEach(put)` */
    method PutAll(list: seq<Model>)
      requires Valid()
      modifies this
      ensures Valid() && models == old(models) + list
    {
      for i := 0 to |list|
        invariant Valid() && models == old(models) + list[..i]
      {
        Put(list[i]);
      }
      assert list[..|list|] == list;
    }

    /** `order.map((id) => merged.get(id)!)` */
    function Values(): (r: seq<Model>)
      requires Valid()
      reads this
      ensures r == Merged(models)
    {
      assert forall i :: 0 <= i < |order| ==> order[i] in merged by {
        forall i | 0 <= i < |order|
          ensures order[i] in merged
        {
          IdsAreFound(models, order[i]);
        }
      }
      seq(|order|, i requires 0 <= i < |order| && order[i] in merged reads this => merged[order[i]])
    }

    method Put(model: Model)
      requires Valid()
      modifies this
      ensures Valid() && models == old(models) + [model]
    {
      IdsAreFound(models, model.id);
      ghost var before := models;
      models := models + [model];
      assert Init(models) == before;
      if model.id !in merged {
        order := order + [model.id];
        merged := merged[model.id := model];
        return;
      }
      var existing := merged[model.id];
      var next := Model(model.id, existing.name, model.supportsThinking, existing.fields + model.fields);
      var supportsThinking := Or(existing.supportsThinking, model.supportsThinking);
      if supportsThinking.Some? {
        next := next.(supportsThinking := supportsThinking);
      }
      merged := merged[model.id := next];
    }
  }

  /** `mergeModelLists` */
  method MergeModelLists(base: seq<Model>, remote: seq<Model>) returns (r: seq<Model>)
    ensures r == Merged(base + remote)
  {
    var merger := new Merger();
    merger.PutAll(base);
    merger.PutAll(remote);
    assert [] + base + remote == base + remote;
    r := merger.Values();
  }

  // ---------------------------------------------------------------- which values survive

  /** The name is that of the first model with the id. */
  lemma {:induction false} NameIsTheFirst(models: seq<Model>, id: string) returns (k: nat)
    requires At(models, id).Some?
    ensures k < |models| && models[k].id == id && models[k].name == At(models, id).value.name
    ensures forall i :: 0 <= i < k ==> models[i].id != id
  {
    if At(Init(models), id).Some? {
      k := NameIsTheFirst(Init(models), id);
    } else {
      k := |models| - 1;
      forall i | 0 <= i < k
        ensures models[i].id != id
      {
        PresentIsFound(Init(models), i);
      }
    }
  }

  lemma {:induction false} PresentIsFound(models: seq<Model>, i: nat)
    requires i < |models|
    ensures At(models, models[i].id).Some?
  {
    if i < |models| - 1 {
      PresentIsFound(Init(models), i);
    }
  }

  /** The thinking flag is the first one given for the id. */
  lemma {:induction false} ThinkingIsTheFirstGiven(models: seq<Model>, id: string) returns (k: nat)
    requires At(models, id).Some?
    ensures k <= |models| && forall i :: 0 <= i < k && models[i].id == id ==> models[i].supportsThinking.None?
    ensures At(models, id).value.supportsThinking.None? ==> k == |models|
    ensures At(models, id).value.supportsThinking.Some? ==>
              k < |models| && models[k].id == id && models[k].supportsThinking == At(models, id).value.supportsThinking
  {
    if At(Init(models), id).Some? {
      k := ThinkingIsTheFirstGiven(Init(models), id);
      if k == |models| - 1 && (Last(models).id != id || Last(models).supportsThinking.None?) {
        k := |models|;
      }
    } else {
      forall i | 0 <= i < |models| - 1
        ensures models[i].id != id
      {
        PresentIsFound(Init(models), i);
      }
      k := if Last(models).supportsThinking.Some? then |models| - 1 else |models|;
    }
  }

  /** Any other field has the last value given for the id. */
  lemma {:induction false} FieldIsTheLast(models: seq<Model>, id: string, field: string) returns (k: int)
    requires At(models, id).Some?
    ensures -1 <= k < |models| && forall i :: k < i < |models| && models[i].id == id ==> field !in models[i].fields
    ensures field in At(models, id).value.fields <==> k >= 0
    ensures k >= 0 ==> models[k].id == id && field in models[k].fields
                       && models[k].fields[field] == At(models, id).value.fields[field]
  {
    if Last(models).id == id && field in Last(models).fields {
      k := |models| - 1;
    } else if At(Init(models), id).Some? {
      k := FieldIsTheLast(Init(models), id, field);
    } else {
      k := -1;
      forall i | 0 <= i < |models| - 1
        ensures models[i].id != id
      {
        PresentIsFound(Init(models), i);
      }
    }
  }

  // ---------------------------------------------------------------- the algebra of merging

  lemma CombineIsAssociative(a: Option<Model>, b: Option<Model>, c: Option<Model>)
    ensures Combine(Combine(a, b), c) == Combine(a, Combine(b, c))
  {
    if a.Some? && b.Some? && c.Some? {
      assert (a.value.fields + b.value.fields) + c.value.fields == a.value.fields + (b.value.fields + c.value.fields);
    }
  }

  lemma CombineTwice(a: Option<Model>, b: Option<Model>)
    ensures Combine(Combine(a, b), b) == Combine(a, b)
  {
    if b.Some? {
      assert b.value.fields + b.value.fields == b.value.fields;
      if a.Some? {
        assert (a.value.fields + b.value.fields) + b.value.fields == a.value.fields + b.value.fields;
      }
    }
  }

  lemma {:induction false} AtConcat(a: seq<Model>, b: seq<Model>, id: string)
    ensures At(a + b, id) == Combine(At(a, id), At(b, id))
    decreases |b|
  {
    if b == [] {
      assert a + b == a;
    } else {
      assert Init(a + b) == a + Init(b) && Last(a + b) == Last(b);
      AtConcat(a, Init(b), id);
      CombineIsAssociative(At(a, id), At(Init(b), id), Some(Last(b)));
    }
  }

  function WithIds(ids: seq<string>, more: seq<string>): seq<string>
    decreases |more|
  {
    if more == [] then ids else WithId(WithIds(ids, more[..|more| - 1]), more[|more| - 1])
  }

  lemma {:induction false} IdsConcat(a: seq<Model>, b: seq<Model>)
    ensures Ids(a + b) == WithIds(Ids(a), Ids(b))
    decreases |b|
  {
    if b == [] {
      assert a + b == a;
    } else {
      assert Init(a + b) == a + Init(b) && Last(a + b) == Last(b);
      IdsConcat(a, Init(b));
      var ids := Ids(Init(b));
      if Last(b).id in ids {
        WithIdsHasAll(Ids(a), ids, Last(b).id);
      } else {
        assert (ids + [Last(b).id])[..|ids|] == ids;
      }
    }
  }

  lemma {:induction false} WithIdsHasAll(ids: seq<string>, more: seq<string>, id: string)
    requires id in more
    ensures id in WithIds(ids, more)
    decreases |more|
  {
    if id != more[|more| - 1] {
      WithIdsHasAll(ids, more[..|more| - 1], id);
    }
  }

  /** No id occurs twice, and every model's id occurs. */
  lemma {:induction false} IdsAreDistinct(models: seq<Model>)
    ensures NoRepeats(Ids(models))
    ensures forall i :: 0 <= i < |models| ==> models[i].id in Ids(models)
  {
    if models != [] {
      IdsAreDistinct(Init(models));
      forall i | 0 <= i < |models|
        ensures models[i].id in Ids(models)
      {
        assert i < |models| - 1 ==> models[i] == Init(models)[i];
      }
    }
  }

  /** `models[k]` is the first model with the id. */
  predicate IsFirst(models: seq<Model>, id: string, k: nat) {
    k < |models| && models[k].id == id && forall i :: 0 <= i < k ==> models[i].id != id
  }

  /** The ids come in the order of their first occurrences. */
  lemma {:induction false} FirstOccurrencesAscend(models: seq<Model>, i: nat, j: nat) returns (k: nat, l: nat)
    requires i < j < |Ids(models)|
    ensures IsFirst(models, Ids(models)[i], k) && IsFirst(models, Ids(models)[j], l) && k < l
  {
    var before := Ids(Init(models));
    if j < |before| {
      k, l := FirstOccurrencesAscend(Init(models), i, j);
    } else {
      l := |models| - 1;
      IdsAreDistinct(Init(models));
      IdsAreFound(Init(models), before[i]);
      k := NameIsTheFirst(Init(models), before[i]);
    }
  }

  lemma {:induction false} DistinctModelsStay(models: seq<Model>, id: string)
    requires forall i, j :: 0 <= i < j < |models| ==> models[i].id != models[j].id
    ensures |Ids(models)| == |models| && forall i :: 0 <= i < |models| ==> Ids(models)[i] == models[i].id
    ensures forall i :: 0 <= i < |models| && models[i].id == id ==> At(models, id) == Some(models[i])
    ensures (forall i :: 0 <= i < |models| ==> models[i].id != id) ==> At(models, id).None?
  {
    if models != [] {
      DistinctModelsStay(Init(models), id);
      assert Last(models).id !in Ids(Init(models));
    }
  }

  /** A merged list stands for the same models as the lists it came from. */
  lemma MergedAmountsToTheSame(models: seq<Model>, id: string)
    ensures Ids(Merged(models)) == Ids(models) && At(Merged(models), id) == At(models, id)
  {
    var merged := Merged(models);
    IdsAreDistinct(models);
    forall i | 0 <= i < |merged|
      ensures merged[i].id == Ids(models)[i] && At(models, merged[i].id) == Some(merged[i])
    {
      IdsAreFound(models, Ids(models)[i]);
    }
    DistinctModelsStay(merged, id);
    IdsAreFound(models, id);
    if id in Ids(models) {
      var i :| 0 <= i < |Ids(models)| && Ids(models)[i] == id;
      assert merged[i].id == id;
    }
  }

  lemma SameIdsSameMerge(a: seq<Model>, b: seq<Model>)
    requires Ids(a) == Ids(b) && forall id :: At(a, id) == At(b, id)
    ensures Merged(a) == Merged(b)
  {
  }

  /** What `mergeModelLists` returns. */
  function Merge(base: seq<Model>, remote: seq<Model>): seq<Model> {
    Merged(base + remote)
  }

  lemma MergedInFront(a: seq<Model>, b: seq<Model>)
    ensures Merged(Merged(a) + b) == Merged(a + b)
  {
    forall id
      ensures At(Merged(a) + b, id) == At(a + b, id)
    {
      MergedAmountsToTheSame(a, id);
      AtConcat(Merged(a), b, id);
      AtConcat(a, b, id);
    }
    assert Ids(Merged(a) + b) == Ids(a + b) by {
      MergedAmountsToTheSame(a, "");
      IdsConcat(Merged(a), b);
      IdsConcat(a, b);
    }
    SameIdsSameMerge(Merged(a) + b, a + b);
  }

  lemma MergedBehind(a: seq<Model>, b: seq<Model>)
    ensures Merged(a + Merged(b)) == Merged(a + b)
  {
    forall id
      ensures At(a + Merged(b), id) == At(a + b, id)
    {
      MergedAmountsToTheSame(b, id);
      AtConcat(a, Merged(b), id);
      AtConcat(a, b, id);
    }
    assert Ids(a + Merged(b)) == Ids(a + b) by {
      MergedAmountsToTheSame(b, "");
      IdsConcat(a, Merged(b));
      IdsConcat(a, b);
    }
    SameIdsSameMerge(a + Merged(b), a + b);
  }

  /** Merging is associative. */
  lemma MergeIsAssociative(a: seq<Model>, b: seq<Model>, c: seq<Model>)
    ensures Merge(Merge(a, b), c) == Merge(a, Merge(b, c))
  {
    MergedInFront(a + b, c);
    MergedBehind(a, b + c);
    assert (a + b) + c == a + (b + c);
  }

  lemma {:induction false} WithKnownIds(ids: seq<string>, more: seq<string>)
    requires forall id :: id in more ==> id in ids
    ensures WithIds(ids, more) == ids
    decreases |more|
  {
    if more != [] {
      WithKnownIds(ids, more[..|more| - 1]);
    }
  }

  /** Merging the same remote list again changes nothing. */
  lemma MergeIsIdempotent(base: seq<Model>, remote: seq<Model>)
    ensures Merge(Merge(base, remote), remote) == Merge(base, remote)
  {
    var once := base + remote;
    MergedInFront(once, remote);
    forall id
      ensures At(once + remote, id) == At(once, id)
    {
      AtConcat(once, remote, id);
      AtConcat(base, remote, id);
      CombineTwice(At(base, id), At(remote, id));
    }
    assert Ids(once + remote) == Ids(once) by {
      IdsConcat(once, remote);
      IdsConcat(base, remote);
      forall id | id in Ids(remote)
        ensures id in Ids(once)
      {
        WithIdsHasAll(Ids(base), Ids(remote), id);
      }
      WithKnownIds(Ids(once), Ids(remote));
    }
    SameIdsSameMerge(once + remote, once);
  }
}
