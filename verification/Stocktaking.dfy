/** Counting the values a finite map holds. */
module Stocktaking {
  lemma OneFewer<K, V>(m: map<K, V>, at: K)
    requires at in m
    ensures |m - {at}| == |m| - 1
  {
  }

  lemma RemoveTwice<K, V>(m: map<K, V>, a: K, b: K)
    ensures m - {a} - {b} == m - {b} - {a}
  {
  }

  lemma RemoveInserted<K, V>(m: map<K, V>, at: K, entry: V)
    ensures m[at := entry] - {at} == m - {at}
    ensures at !in m ==> m - {at} == m
  {
  }

  ghost function Pick<K, V>(m: map<K, V>): (at: K)
    requires m != map[]
    ensures at in m
  {
    var at :| at in m;
    at
  }

  /** Every entry of a map, counted. */
  ghost function Stock<K, V>(m: map<K, V>): multiset<V>
    decreases |m|
  {
    if m == map[] then multiset{}
    else
      OneFewer(m, Pick(m));
      multiset{m[Pick(m)]} + Stock(m - {Pick(m)})
  }

  lemma StockUnfold<K, V>(m: map<K, V>)
    requires m != map[]
    ensures Stock(m) == multiset{m[Pick(m)]} + Stock(m - {Pick(m)})
  {
  }

  /** The count does not depend on the order the entries are picked in. */
  lemma {:induction false} StockRemove<K, V>(m: map<K, V>, at: K)
    requires at in m
    ensures Stock(m) == multiset{m[at]} + Stock(m - {at})
    decreases |m|
  {
    var pick := Pick(m);
    if pick == at {
      StockUnfold(m);
    } else {
      calc {
        Stock(m);
        { StockUnfold(m); }
        multiset{m[pick]} + Stock(m - {pick});
        { OneFewer(m, pick); StockRemove(m - {pick}, at); }
        multiset{m[pick]} + (multiset{m[at]} + Stock(m - {pick} - {at}));
        { RemoveTwice(m, pick, at); }
        multiset{m[at]} + (multiset{m[pick]} + Stock(m - {at} - {pick}));
        { OneFewer(m, at); StockRemove(m - {at}, pick); }
        multiset{m[at]} + Stock(m - {at});
      }
    }
  }

  lemma StockInsert<K, V>(m: map<K, V>, at: K, entry: V)
    ensures Stock(m[at := entry]) + (if at in m then multiset{m[at]} else multiset{}) == Stock(m) + multiset{entry}
  {
    RemoveInserted(m, at, entry);
    StockRemove(m[at := entry], at);
    if at in m {
      StockRemove(m, at);
    }
  }
}
