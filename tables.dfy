/**
 * The injector's two lookup tables (injected fields by name, shadowed
 * fields by pool reference) are HashMaps filled by repeated `put`. What a
 * run of puts leaves behind is described once here, for any key type.
 */
module Tables {
  import opened ClassModel

  /**
   * `after` is `before` with the `pairs` put into it: every key of a pair
   * is present and holds one of that key's pairs (a later put overwrites),
   * and every other entry is an untouched old one.
   */
  ghost predicate MapFilled<K(!new)>(before: map<K, Field>, after: map<K, Field>, pairs: set<(K, Field)>) {
    && (forall k :: k in after <==> k in before || exists v :: (k, v) in pairs)
    && (forall k :: k in after ==> (k in before && after[k] == before[k]) || (k, after[k]) in pairs)
    && (forall k, v :: (k, v) in pairs ==> k in after && (k, after[k]) in pairs)
  }

  /** A single put. */
  lemma PutFills<K(!new)>(m: map<K, Field>, k: K, v: Field)
    ensures MapFilled(m, m[k := v], {(k, v)})
  {
  }

  lemma NothingFills<K(!new)>(m: map<K, Field>)
    ensures MapFilled(m, m, {})
  {
  }

  /** Two runs of puts in a row are one run with the pairs of both. */
  lemma {:induction false} MapFilledTrans<K(!new)>(a: map<K, Field>, b: map<K, Field>, c: map<K, Field>,
                                            p1: set<(K, Field)>, p2: set<(K, Field)>)
    requires MapFilled(a, b, p1) && MapFilled(b, c, p2)
    ensures MapFilled(a, c, p1 + p2)
  {
    forall k | k in a || exists v :: (k, v) in p1 + p2
      ensures k in c
    {
      if k !in a {
        var v :| (k, v) in p1 + p2;
        if (k, v) in p1 { assert k in b; }
      } else {
        assert k in b;
      }
    }
    forall k, v | (k, v) in p1 + p2
      ensures k in c && (k, c[k]) in p1 + p2
    {
      if (k, c[k]) !in p2 {
        assert (k, v) in p1;
        assert k in b && c[k] == b[k];
      }
    }
    forall k | k in c
      ensures (k in a && c[k] == a[k]) || (k, c[k]) in p1 + p2
      ensures k in a || exists v :: (k, v) in p1 + p2
    {
      if (k, c[k]) !in p2 {
        assert k in b && c[k] == b[k];
        if !(k in a && b[k] == a[k]) {
          assert (k, b[k]) in p1;
        }
      }
    }
  }
}
