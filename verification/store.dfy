/**
 * The key-value store as the ingestion sees it: a map from key to value that
 * receives `set` and `setex` commands. Expiry itself happens inside the store
 * and is not modelled; a write only records whether it carried a TTL.
 */
module Store {

  type Store = map<string, string>

  /** `set key value`, or `setex key seconds value`. */
  datatype Write = Set(key: string, value: string) | SetEx(key: string, seconds: int, value: string)

  /** A write overwrites whatever the key held. */
  function Apply(store: Store, w: Write): (r: Store)
    ensures w.key in r && r[w.key] == w.value
    ensures forall k :: k != w.key ==> (k in r <==> k in store) && (k in store ==> r[k] == store[k])
  {
    store[w.key := w.value]
  }

  /** The store after the writes, performed in order. */
  function ApplyAll(store: Store, ws: seq<Write>): (r: Store)
    ensures forall k :: k in r <==> k in store || exists i :: 0 <= i < |ws| && ws[i].key == k
  {
    if |ws| == 0 then store
    else
      var init := ws[..|ws| - 1];
      assert forall i :: 0 <= i < |init| ==> init[i] == ws[i];
      Apply(ApplyAll(store, init), ws[|ws| - 1])
  }

  /** Performing `a` then `b` is performing `a + b`. */
  lemma {:induction false} ApplyAllAppend(store: Store, a: seq<Write>, b: seq<Write>)
    ensures ApplyAll(store, a + b) == ApplyAll(ApplyAll(store, a), b)
    decreases |b|
  {
    if |b| == 0 {
      assert a + b == a;
    } else {
      var b' := b[..|b| - 1];
      assert (a + b)[..|a + b| - 1] == a + b';
      ApplyAllAppend(store, a, b');
    }
  }

  /** Last write wins: a key holds the value of the last write to it. */
  lemma {:induction false} LastWriteWins(store: Store, ws: seq<Write>, i: nat)
    requires i < |ws|
    requires forall j :: i < j < |ws| ==> ws[j].key != ws[i].key
    ensures ws[i].key in ApplyAll(store, ws)
    ensures ApplyAll(store, ws)[ws[i].key] == ws[i].value
    decreases |ws|
  {
    var init := ws[..|ws| - 1];
    if i < |ws| - 1 {
      assert init[i] == ws[i];
      LastWriteWins(store, init, i);
    }
  }

  /** A key no write mentions keeps its old value, or stays absent. */
  lemma {:induction false} UntouchedKey(store: Store, ws: seq<Write>, k: string)
    requires forall j :: 0 <= j < |ws| ==> ws[j].key != k
    ensures k in ApplyAll(store, ws) <==> k in store
    ensures k in store ==> ApplyAll(store, ws)[k] == store[k]
    decreases |ws|
  {
    if |ws| > 0 {
      UntouchedKey(store, ws[..|ws| - 1], k);
    }
  }
}
