/** `std::map<std::string, std::string>` as a value: an association list kept
    strictly sorted by key under the byte-wise lexicographic order that
    `std::string::compare` uses. Iterating a std::map visits keys in that
    order, which is why the response serialiser emits headers sorted. */
module OrderedMap {
  import opened Common

  /** Strict lexicographic order on strings, character by character. */
  predicate Less(a: string, b: string)
  {
    if a == [] then b != []
    else if b == [] then false
    else a[0] < b[0] || (a[0] == b[0] && Less(a[1..], b[1..]))
  }

  lemma {:induction false} LessIrreflexive(a: string)
    ensures !Less(a, a)
  {
    if a != [] {
      LessIrreflexive(a[1..]);
    }
  }

  lemma {:induction false} LessTransitive(a: string, b: string, c: string)
    requires Less(a, b) && Less(b, c)
    ensures Less(a, c)
  {
    if a != [] && b != [] && c != [] && a[0] == b[0] && b[0] == c[0] {
      LessTransitive(a[1..], b[1..], c[1..]);
    }
  }

  lemma {:induction false} LessTotal(a: string, b: string)
    ensures a == b || Less(a, b) || Less(b, a)
  {
    if a != [] && b != [] && a[0] == b[0] {
      LessTotal(a[1..], b[1..]);
      if a[1..] == b[1..] {
        assert a == [a[0]] + a[1..] && b == [b[0]] + b[1..];
      }
    }
  }

  lemma {:induction false} LessAsymmetric(a: string, b: string)
    requires Less(a, b)
    ensures !Less(b, a)
  {
    if a != [] && b != [] && a[0] == b[0] {
      LessAsymmetric(a[1..], b[1..]);
    }
  }

  type Entries = seq<(string, string)>

  /** Keys strictly increase along the list, so each key occurs once. */
  predicate Sorted(m: Entries)
  {
    forall i, j :: 0 <= i < j < |m| ==> Less(m[i].0, m[j].0)
  }

  function KeySet(m: Entries): set<string>
  {
    if m == [] then {} else {m[0].0} + KeySet(m[1..])
  }

  /** `find`: the value stored under `k`, if any. */
  function Get(m: Entries, k: string): (r: Option<string>)
    ensures r.None? <==> k !in KeySet(m)
  {
    if m == [] then None
    else if m[0].0 == k then Some(m[0].1)
    else Get(m[1..], k)
  }

  /** `x` is below every key of `m`. */
  predicate Below(x: string, m: Entries)
  {
    forall i :: 0 <= i < |m| ==> Less(x, m[i].0)
  }

  /** `m[k] = v`: overwrite the entry for `k`, or insert one in front of the
      first larger key. */
  function Put(m: Entries, k: string, v: string): (r: Entries)
    ensures |r| <= |m| + 1
  {
    if m == [] then [(k, v)]
    else if m[0].0 == k then [(k, v)] + m[1..]
    else if Less(k, m[0].0) then [(k, v)] + m
    else [m[0]] + Put(m[1..], k, v)
  }

  /** Insertion keeps the keys sorted. */
  lemma {:induction false} PutKeepsSorted(m: Entries, k: string, v: string)
    requires Sorted(m)
    ensures Sorted(Put(m, k, v))
    decreases |m|, 0
  {
    if m == [] {
    } else if m[0].0 == k {
    } else if Less(k, m[0].0) {
      forall j | 0 < j < |m| ensures Less(k, m[j].0) {
        LessTransitive(k, m[0].0, m[j].0);
      }
    } else {
      LessTotal(k, m[0].0);
      PutKeepsBelow(m[1..], k, v, m[0].0);
      PutKeepsSorted(m[1..], k, v);
    }
  }

  lemma {:induction false} PutKeepsBelow(m: Entries, k: string, v: string, x: string)
    requires Sorted(m) && Below(x, m) && Less(x, k)
    ensures Below(x, Put(m, k, v))
    decreases |m|, 1
  {
    if m != [] && m[0].0 != k && !Less(k, m[0].0) {
      PutKeepsBelow(m[1..], k, v, x);
    }
  }

  /** After `m[k] = v` the key maps to `v` and every other key is untouched. */
  lemma {:induction false} PutGet(m: Entries, k: string, v: string, k': string)
    ensures Get(Put(m, k, v), k') == if k' == k then Some(v) else Get(m, k')
    decreases |m|
  {
    if m != [] && m[0].0 != k && !Less(k, m[0].0) {
      PutGet(m[1..], k, v, k');
    }
  }

  lemma {:induction false} PutKeySet(m: Entries, k: string, v: string)
    ensures KeySet(Put(m, k, v)) == KeySet(m) + {k}
    decreases |m|
  {
    if m != [] && m[0].0 != k && !Less(k, m[0].0) {
      PutKeySet(m[1..], k, v);
    }
  }

  /** Sortedness makes the list a faithful picture of a finite map. */
  lemma {:induction false} SortedKeysDistinct(m: Entries, i: nat, j: nat)
    requires Sorted(m) && i < j < |m|
    ensures m[i].0 != m[j].0
  {
    LessIrreflexive(m[i].0);
  }
}
