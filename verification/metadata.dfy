/** JSON sidecar metadata and the shallow merge both scripts use to patch it,
    `dict(meta.items() + add.items())`. */
module Metadata {
  import opened Results

  /** A JSON value as `json.load` returns it. */
  datatype Json =
    | JNull
    | JBool(b: bool)
    | JNum(n: real)
    | JStr(s: string)
    | JArr(elems: seq<Json>)
    | JObj(fields: map<string, Json>)

  type Object = map<string, Json>

  /** The pairs `items` put one by one into `d`, a later pair overriding an earlier one. */
  function Into(d: Object, items: seq<(string, Json)>): Object
  {
    if items == [] then d
    else Into(d, items[..|items| - 1])[items[|items| - 1].0 := items[|items| - 1].1]
  }

  /** `dict(items)`. */
  function DictFromItems(items: seq<(string, Json)>): Object
  {
    Into(map[], items)
  }

  /** `items` lists `m` the way `m.items()` may (Python 2 leaves the order open). */
  ghost predicate ItemsOf(items: seq<(string, Json)>, m: Object)
  {
    && (forall i :: 0 <= i < |items| ==> items[i].0 in m && m[items[i].0] == items[i].1)
    && (forall k :: k in m ==> exists i :: 0 <= i < |items| && items[i].0 == k)
  }

  function KeysOf(items: seq<(string, Json)>): set<string>
  {
    set i | 0 <= i < |items| :: items[i].0
  }

  lemma {:induction false} IntoAppend(d: Object, a: seq<(string, Json)>, b: seq<(string, Json)>)
    ensures Into(d, a + b) == Into(Into(d, a), b)
    decreases |b|
  {
    if b == [] {
      assert a + b == a;
    } else {
      assert (a + b)[..|a + b| - 1] == a + b[..|b| - 1];
      IntoAppend(d, a, b[..|b| - 1]);
    }
  }

  /** Putting pairs that agree with `m` into `d` overrides `d` with `m` on the keys listed. */
  lemma {:induction false} IntoAgreeing(d: Object, items: seq<(string, Json)>, m: Object)
    requires forall i :: 0 <= i < |items| ==> items[i].0 in m && m[items[i].0] == items[i].1
    ensures Into(d, items) == d + map k | k in KeysOf(items) && k in m :: m[k]
    decreases |items|
  {
    if items != [] {
      var init, last := items[..|items| - 1], items[|items| - 1];
      IntoAgreeing(d, init, m);
      KeysOfSnoc(init, last);
      assert init + [last] == items;
      var before := map k | k in KeysOf(init) && k in m :: m[k];
      var after := map k | k in KeysOf(items) && k in m :: m[k];
      assert after == before[last.0 := last.1];
      calc {
        Into(d, items);
        Into(d, init)[last.0 := last.1];
        (d + before)[last.0 := last.1];
      == { UpdateUnion(d, before, last.0, last.1); }
        d + before[last.0 := last.1];
        d + after;
      }
    }
  }

  lemma UpdateUnion(d: Object, b: Object, k: string, v: Json)
    ensures (d + b)[k := v] == d + b[k := v]
  {
  }

  lemma KeysOfSnoc(items: seq<(string, Json)>, last: (string, Json))
    ensures KeysOf(items + [last]) == KeysOf(items) + {last.0}
  {
    var all := items + [last];
    forall k | k in KeysOf(all) ensures k in KeysOf(items) + {last.0} {
      var i :| 0 <= i < |all| && all[i].0 == k;
      if i < |items| {
        assert items[i] == all[i];
      }
    }
    forall k | k in KeysOf(items) ensures k in KeysOf(all) {
      var i :| 0 <= i < |items| && items[i].0 == k;
      assert all[i] == items[i];
    }
    assert all[|items|] == last;
  }

  /** `dict(meta.items() + add.items())` is the union of the two dicts in which the keys of
      `add` take `add`'s values, whichever order `items()` lists them in. */
  lemma ItemsUnion(ia: seq<(string, Json)>, a: Object, ib: seq<(string, Json)>, b: Object)
    requires ItemsOf(ia, a) && ItemsOf(ib, b)
    ensures DictFromItems(ia + ib) == Merge(a, b)
  {
    IntoAppend(map[], ia, ib);
    ItemsOfRebuilds(ia, a);
    IntoAgreeing(map[], ia, a);
    assert Into(map[], ia) == a;
    ItemsOfRebuilds(ib, b);
    IntoAgreeing(a, ib, b);
  }

  /** `dict(m.items())` is `m` again, whatever order the items come in. */
  lemma ItemsOfRebuilds(items: seq<(string, Json)>, m: Object)
    requires ItemsOf(items, m)
    ensures (map k | k in KeysOf(items) && k in m :: m[k]) == m
    ensures DictFromItems(items) == m
  {
    forall k | k in m ensures k in KeysOf(items) {
      var i :| 0 <= i < |items| && items[i].0 == k;
    }
    IntoAgreeing(map[], items, m);
  }

  /** The merged dict: every key of either, the added value winning on a shared key. */
  function Merge(meta: Object, add: Object): Object
  {
    meta + add
  }

  /** Merging the same addition a second time changes nothing. */
  lemma MergeIdempotent(meta: Object, add: Object)
    ensures Merge(Merge(meta, add), add) == Merge(meta, add)
  {
  }

  /** `add_metadata(infofile, add)` on the sidecar store `docs` (path to parsed JSON):
      load the file, merge `add` into it and write it back. A missing file is the IOError
      `open` raises; a document that is not an object has no `items()`. */
  function AddMetadata(docs: map<string, Json>, infofile: string, add: Object): (r: Result<map<string, Json>>)
    ensures r.Success? <==> infofile in docs && docs[infofile].JObj?
    ensures infofile !in docs ==> r == Failure(IOError("No such file or directory"))
    ensures r.Success? ==> r.value.Keys == docs.Keys
    ensures r.Success? ==> r.value[infofile] == JObj(Merge(docs[infofile].fields, add))
    ensures r.Success? ==> forall p :: p in docs && p != infofile ==> r.value[p] == docs[p]
  {
    if infofile !in docs then Failure(IOError("No such file or directory"))
    else match docs[infofile]
      case JObj(meta) => Success(docs[infofile := JObj(Merge(meta, add))])
      case _ => Failure(AttributeError)
  }
}
