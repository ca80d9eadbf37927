/** Facts about map union and update that the stream dictionary relies on. */
module Maps {

  /** Two successive updates add a two-entry map. */
  lemma UpdateIsUnion<K, V>(acc: map<K, V>, k1: K, v1: V, k2: K, v2: V)
    ensures acc[k1 := v1][k2 := v2] == acc + map[k1 := v1, k2 := v2]
  {
  }

  /** Union is associative, and the empty map is its right unit. */
  lemma UnionAssociative<K, V>(a: map<K, V>, b: map<K, V>, c: map<K, V>)
    ensures a + (b + c) == (a + b) + c
    ensures a + map[] == a
  {
  }

  /** A key held by at most the `which`-th of three maps reads from that map in their union. */
  lemma LookupUnion<K, V>(a: map<K, V>, b: map<K, V>, c: map<K, V>, k: K, which: int)
    requires which == 1 ==> k !in b && k !in c
    requires which == 2 ==> k !in a && k !in c
    requires which == 3 ==> k !in a && k !in b
    requires 1 <= which <= 3
    ensures which == 1 ==> (k in a + b + c <==> k in a) && (k in a ==> (a + b + c)[k] == a[k])
    ensures which == 2 ==> (k in a + b + c <==> k in b) && (k in b ==> (a + b + c)[k] == b[k])
    ensures which == 3 ==> (k in a + b + c <==> k in c) && (k in c ==> (a + b + c)[k] == c[k])
  {
  }
}
