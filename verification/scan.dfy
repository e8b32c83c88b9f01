/**
 The filtered table scan behind the list operation. A scan evaluates the items
 of the table in an order the store chooses, stops after `limit` evaluated
 items, and only then applies the filter `recordType = "PATIENT_INFO"`.
 */
module Scan {
  import opened Patients

  function Min(a: nat, b: nat): nat {
    if a <= b then a else b
  }

  /** No key occurs twice. */
  predicate Distinct(s: seq<Key>) {
    forall i, j | 0 <= i < j < |s| :: s[i] != s[j]
  }

  function Elements(s: seq<Key>): set<Key> {
    set k | k in s
  }

  /** `order` visits every item of the table exactly once. */
  predicate Enumerates(order: seq<Key>, store: Store) {
    Distinct(order) && Elements(order) == store.Keys
  }

  /** Keys among `ks` whose item is stored and is a demographic record. */
  function PatientInfoAmong(store: Store, ks: set<Key>): set<Key> {
    set k | k in ks && k in store && store[k].recordType == PatientInfo
  }

  /** Keys of all demographic records in the table. */
  function PatientInfoKeys(store: Store): set<Key> {
    PatientInfoAmong(store, store.Keys)
  }

  /** The items a scan with this limit evaluates: a prefix of the scan order. */
  function Page(order: seq<Key>, limit: nat): (page: seq<Key>)
    ensures |page| == Min(limit, |order|)
    ensures page <= order
  {
    if limit < |order| then order[..limit] else order
  }

  /** The evaluated keys that pass the filter, in scan order. */
  function MatchingKeys(store: Store, keys: seq<Key>): (r: seq<Key>)
    ensures |r| <= |keys|
    ensures forall i | 0 <= i < |r| :: r[i] in store && store[r[i]].recordType == PatientInfo
    ensures forall k | k in r :: k in keys
  {
    if keys == [] then []
    else
      var rest := MatchingKeys(store, keys[1..]);
      if keys[0] in store && store[keys[0]].recordType == PatientInfo then [keys[0]] + rest
      else rest
  }

  /** Helper: the stored items under `ks`, in the same order. */
  function RecordsOf(store: Store, ks: seq<Key>): (ps: seq<Patient>)
    requires forall i | 0 <= i < |ks| :: ks[i] in store
    ensures |ps| == |ks|
    ensures forall i | 0 <= i < |ks| :: ps[i] == store[ks[i]]
  {
    seq(|ks|, i requires 0 <= i < |ks| => store[ks[i]])
  }

  lemma HeadNotInTail(s: seq<Key>)
    requires Distinct(s) && |s| > 0
    ensures s[0] !in s[1..]
  {
  }

  /** A sequence without repetitions has as many elements as its length. */
  lemma {:induction false} DistinctCardinality(s: seq<Key>)
    requires Distinct(s)
    ensures |Elements(s)| == |s|
  {
    if s != [] {
      DistinctCardinality(s[1..]);
      assert Elements(s) == {s[0]} + Elements(s[1..]);
      HeadNotInTail(s);
    }
  }

  /**
   Over keys that do not repeat, the filter keeps exactly the demographic records,
   each once.
   */
  lemma {:induction false} MatchingKeysExact(store: Store, keys: seq<Key>)
    requires Distinct(keys)
    ensures Distinct(MatchingKeys(store, keys))
    ensures Elements(MatchingKeys(store, keys)) == PatientInfoAmong(store, Elements(keys))
  {
    if keys != [] {
      var rest := keys[1..];
      assert Distinct(rest);
      MatchingKeysExact(store, rest);
      assert Elements(keys) == {keys[0]} + Elements(rest);
      HeadNotInTail(keys);
      var r := MatchingKeys(store, keys);
      var r' := MatchingKeys(store, rest);
      if keys[0] in store && store[keys[0]].recordType == PatientInfo {
        assert r == [keys[0]] + r';
        assert keys[0] !in r';
        forall i, j | 0 <= i < j < |r| ensures r[i] != r[j] {
          if i == 0 {
            assert r[j] == r'[j - 1];
          } else {
            assert r[i] == r'[i - 1] && r[j] == r'[j - 1];
          }
        }
        assert Elements(r) == {keys[0]} + Elements(r');
      } else {
        assert r == r';
      }
    }
  }

  /** When every evaluated key holds a demographic record, the filter removes nothing. */
  lemma {:induction false} MatchingKeysKeepsAll(store: Store, keys: seq<Key>)
    requires forall i | 0 <= i < |keys| :: keys[i] in store && store[keys[i]].recordType == PatientInfo
    ensures MatchingKeys(store, keys) == keys
  {
    if keys != [] {
      MatchingKeysKeepsAll(store, keys[1..]);
    }
  }
}
