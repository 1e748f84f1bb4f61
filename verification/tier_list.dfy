/** The `/tier-list` page: the characters the query selects, put into eight
    buckets by overall tier (`SSS` down to `D`, then `Unranked`), each bucket
    sorted by name. */
module TierList {
  import opened Wrappers
  import opened PyStr
  import opened Models
  import opened SqlLike
  import opened Grouping

  // ---------------------------------------------------------------------------
  // Filtering (`class_name`, `faction`, `search` query parameters).

  /** The three query-string parameters; each may be missing. */
  datatype Query = Query(className: Option<string>, faction: Option<string>, search: Option<string>)

  /** Python truthiness of a parameter: present and non-empty. */
  predicate Given(o: Option<string>)
  {
    o.Some? && o.value != []
  }

  /** The SQL condition the query adds: equality on class and faction (a NULL
      column equals nothing), `name ILIKE '%search%'` for the search term. */
  predicate Matches(c: Character, q: Query)
  {
    && (Given(q.className) ==> c.className == q.className)
    && (Given(q.faction) ==> c.faction == q.faction)
    && (Given(q.search) ==> Like(c.name, Surround(q.search.value)))
  }

  /** `query.all()`: the matching rows, in table order. */
  function Select(cs: seq<Character>, q: Query): (r: seq<Character>)
    ensures |r| <= |cs|
  {
    if cs == [] then []
    else Select(cs[..|cs| - 1], q) + (if Matches(cs[|cs| - 1], q) then [cs[|cs| - 1]] else [])
  }

  /** A character is selected exactly when it is in the table and matches. */
  lemma {:induction false} SelectMembers(cs: seq<Character>, q: Query, c: Character)
    ensures c in Select(cs, q) <==> c in cs && Matches(c, q)
  {
    if cs != [] {
      var init := cs[..|cs| - 1];
      SelectMembers(init, q, c);
      assert cs == init + [cs[|cs| - 1]];
    }
  }

  /** Without any parameter the page lists every character. */
  lemma {:induction false} SelectAll(cs: seq<Character>)
    ensures Select(cs, Query(None, None, None)) == cs
  {
    if cs != [] {
      var q, init, last := Query(None, None, None), cs[..|cs| - 1], cs[|cs| - 1];
      SelectAll(init);
      assert Matches(last, q);
      assert Select(cs, q) == Select(init, q) + [last];
      assert cs == init + [last];
    }
  }

  /** With a search term free of `%` and `_`, a character passes the search
      exactly when its name contains the term, ignoring the case of ASCII
      letters; other letters (Cyrillic among them) must match exactly. */
  lemma SearchMeansSubstring(c: Character, q: Query)
    requires Given(q.search) && NoWildcards(q.search.value)
    ensures Matches(c, q) <==>
      (Given(q.className) ==> c.className == q.className) &&
      (Given(q.faction) ==> c.faction == q.faction) &&
      Contains(c.name, q.search.value)
  {
    SearchIsSubstring(c.name, q.search.value);
  }

  /** A missing or empty `search` parameter (`if search:`) adds no condition. */
  lemma EmptySearchIgnored(c: Character, q: Query)
    requires q.search == None || q.search == Some("")
    ensures Matches(c, q) <==> Matches(c, Query(q.className, q.faction, None))
    ensures Matches(c, q) <==>
      (Given(q.className) ==> c.className == q.className) && (Given(q.faction) ==> c.faction == q.faction)
  {
  }

  // ---------------------------------------------------------------------------
  // Bucketing by overall tier.

  /** The keys of the `tiers` dictionary, in its order. */
  const TierKeys: seq<string> := ["SSS", "SS", "S", "A", "B", "C", "D", "Unranked"]

  /** The eight keys are distinct, and the letters of the grade scale are
      exactly the keys other than `Unranked`. */
  lemma TierKeysAreLetters()
    ensures NoDuplicates(TierKeys)
    ensures forall l :: l in MapLetter <==> l in TierKeys && l != "Unranked"
  {
    ScaleIsBijection();
  }

  /** The bucket a character goes to: its overall tier when that is a key of
      `tiers`, `Unranked` otherwise. */
  function BucketKey(c: Character): (k: string)
    ensures k in TierKeys
    ensures k == "Unranked" <==> OverallTier(c).None?
    ensures OverallTier(c).Some? ==> k == OverallTier(c).value
  {
    TierKeysAreLetters();
    var t := OverallTier(c);
    if t.Some? && t.value in TierKeys then t.value else "Unranked"
  }

  /** The `tiers` dictionary before the loop: every key with an empty list. */
  const EmptyTiers: map<string, seq<Character>> :=
    map["SSS" := [], "SS" := [], "S" := [], "A" := [], "B" := [], "C" := [], "D" := [], "Unranked" := []]

  /** The dictionary after the characters of `s` were appended one by one. */
  function Buckets(s: seq<Character>): (tiers: map<string, seq<Character>>)
    ensures tiers.Keys == set k | k in TierKeys
  {
    if s == [] then EmptyTiers
    else
      var tiers := Buckets(s[..|s| - 1]);
      var key := BucketKey(s[|s| - 1]);
      tiers[key := tiers[key] + [s[|s| - 1]]]
  }

  /** Each bucket holds exactly the characters of its tier, in their order. */
  lemma {:induction false} BucketsAreGroups(s: seq<Character>, k: string)
    requires k in TierKeys
    ensures Buckets(s)[k] == OfKey(s, BucketKey, k)
  {
    if s != [] {
      var n := |s| - 1;
      BucketsAreGroups(s[..n], k);
      OfKeyTake(s, n, BucketKey, k);
      assert s[..n + 1] == s;
    }
  }

  /** The view's own choice of bucket, made on the dictionary's keys, is `BucketKey`. */
  lemma KeyIsBucketKey(tiers: map<string, seq<Character>>, c: Character)
    requires tiers.Keys == set k | k in TierKeys
    ensures var t := OverallTier(c);
      (if t.Some? && t.value in tiers then t.value else "Unranked") == BucketKey(c)
    ensures BucketKey(c) in tiers
  {
  }

  lemma BucketsSnoc(tiers: map<string, seq<Character>>, cs: seq<Character>, i: nat, key: string, ch: Character)
    requires i < |cs| && tiers == Buckets(cs[..i]) && key == BucketKey(cs[i]) && ch == cs[i]
    ensures key in tiers
    ensures tiers[key := tiers[key] + [ch]] == Buckets(cs[..i + 1])
  {
    assert cs[..i + 1][..i] == cs[..i];
  }

  /** The first loop of the view: every character appended to its bucket. */
  method Bucket(cs: seq<Character>) returns (tiers: map<string, seq<Character>>)
    ensures tiers.Keys == set k | k in TierKeys
    ensures forall k :: k in tiers ==> tiers[k] == OfKey(cs, BucketKey, k)
  {
    tiers := EmptyTiers;
    var i := 0;
    while i < |cs|
      invariant i <= |cs|
      invariant tiers == Buckets(cs[..i])
    {
      var ch := cs[i];
      // `t in tiers` on the view's dictionary, whose keys stay `TierKeys`
      // (`KeyIsBucketKey`).
      var key := BucketKey(ch);
      BucketsSnoc(tiers, cs, i, key, ch);
      tiers := tiers[key := tiers[key] + [ch]];
      i := i + 1;
    }
    assert cs[..i] == cs;
    BucketsHoldGroups(cs);
  }

  /** Every bucket of `Buckets(cs)` is the group of its key. */
  lemma BucketsHoldGroups(cs: seq<Character>)
    ensures forall k :: k in Buckets(cs) ==> Buckets(cs)[k] == OfKey(cs, BucketKey, k)
  {
    forall k | k in Buckets(cs)
      ensures Buckets(cs)[k] == OfKey(cs, BucketKey, k)
    {
      BucketsAreGroups(cs, k);
    }
  }

  /** The buckets share out the characters: their sizes add up to the number
      of characters, and each character is in the bucket of its tier only. */
  lemma BucketsPartition(cs: seq<Character>)
    ensures GroupSizes(TierKeys, cs, BucketKey) == |cs|
  {
    TierKeysAreLetters();
    Partition(TierKeys, cs, BucketKey);
  }

  // ---------------------------------------------------------------------------
  // Sorting each bucket by name (`sorted(..., key=lambda c: c.name)`).

  function Name(c: Character): string
  {
    c.name
  }

  predicate Ordered(s: seq<Character>)
  {
    forall i :: 0 <= i < |s| - 1 ==> LessEq(s[i].name, s[i + 1].name)
  }

  /** `c` placed before the first element whose name is not smaller than its own. */
  function Insert(c: Character, t: seq<Character>): (r: seq<Character>)
    ensures |r| == |t| + 1
    ensures r[0] == c || (t != [] && r[0] == t[0])
  {
    if t == [] || LessEq(c.name, t[0].name) then [c] + t
    else [t[0]] + Insert(c, t[1..])
  }

  lemma {:induction false} InsertPermutes(c: Character, t: seq<Character>)
    ensures multiset(Insert(c, t)) == multiset{c} + multiset(t)
  {
    if t != [] && !LessEq(c.name, t[0].name) {
      InsertPermutes(c, t[1..]);
      assert t == [t[0]] + t[1..];
    }
  }

  lemma {:induction false} InsertOrdered(c: Character, t: seq<Character>)
    requires Ordered(t)
    ensures Ordered(Insert(c, t))
  {
    if t != [] && !LessEq(c.name, t[0].name) {
      LessEqTotal(c.name, t[0].name);
      InsertOrdered(c, t[1..]);
    }
  }

  /** `sorted(s, key=name)`: ordered by name and a permutation of `s`. */
  function SortByName(s: seq<Character>): (r: seq<Character>)
    ensures Ordered(r)
    ensures multiset(r) == multiset(s)
  {
    if s == [] then []
    else
      var rest := SortByName(s[1..]);
      InsertOrdered(s[0], rest);
      InsertPermutes(s[0], rest);
      assert s == [s[0]] + s[1..];
      Insert(s[0], rest)
  }

  /** Inserting `c` puts it at the front of the characters sharing its name. */
  lemma {:induction false} InsertFirstOfName(c: Character, t: seq<Character>, n: string)
    ensures OfKey(Insert(c, t), Name, n) == (if c.name == n then [c] else []) + OfKey(t, Name, n)
  {
    if t == [] || LessEq(c.name, t[0].name) {
      OfKeyCons(c, t, Name, n);
    } else {
      InsertFirstOfName(c, t[1..], n);
      InsertPast(c, t, n);
    }
  }

  /** The step of `InsertFirstOfName` where `c` goes past the head of `t`,
      whose name is then smaller and so differs from `c`'s. */
  lemma InsertPast(c: Character, t: seq<Character>, n: string)
    requires t != [] && !LessEq(c.name, t[0].name)
    requires OfKey(Insert(c, t[1..]), Name, n) == (if c.name == n then [c] else []) + OfKey(t[1..], Name, n)
    ensures OfKey(Insert(c, t), Name, n) == (if c.name == n then [c] else []) + OfKey(t, Name, n)
  {
    var u := Insert(c, t[1..]);
    assert Insert(c, t) == [t[0]] + u;
    assert t == [t[0]] + t[1..];
    LessEqReflexive(c.name);
    HeadStays(t[0], u, t[1..], c, n);
  }

  /** A head whose name differs from `c`'s stays in front of `c` in the group
      of names `n`. */
  lemma HeadStays(h: Character, u: seq<Character>, rest: seq<Character>, c: Character, n: string)
    requires h.name == n ==> c.name != n
    requires OfKey(u, Name, n) == (if c.name == n then [c] else []) + OfKey(rest, Name, n)
    ensures OfKey([h] + u, Name, n) == (if c.name == n then [c] else []) + OfKey([h] + rest, Name, n)
  {
    OfKeyCons(h, u, Name, n);
    OfKeyCons(h, rest, Name, n);
    if h.name == n {
      assert OfKey([h] + u, Name, n) == [h] + OfKey(rest, Name, n);
    }
  }

  /** `sorted` is stable: characters with the same name keep their order. */
  lemma {:induction false} SortIsStable(s: seq<Character>, n: string)
    ensures OfKey(SortByName(s), Name, n) == OfKey(s, Name, n)
  {
    if s != [] {
      SortIsStable(s[1..], n);
      InsertFirstOfName(s[0], SortByName(s[1..]), n);
      OfKeyCons(s[0], s[1..], Name, n);
      assert s == [s[0]] + s[1..];
    }
  }

  /** After the first `i` keys: those buckets sorted, the others untouched. */
  predicate SortedUpTo(sorted: map<string, seq<Character>>, tiers: map<string, seq<Character>>, done: seq<string>)
  {
    sorted.Keys == tiers.Keys &&
    forall k :: k in sorted ==> sorted[k] == if k in done then SortByName(tiers[k]) else tiers[k]
  }

  lemma SortStep(sorted: map<string, seq<Character>>, tiers: map<string, seq<Character>>, keys: seq<string>, i: nat)
    requires NoDuplicates(keys) && i < |keys| && keys[i] in sorted
    requires SortedUpTo(sorted, tiers, keys[..i])
    ensures SortedUpTo(sorted[keys[i] := SortByName(sorted[keys[i]])], tiers, keys[..i + 1])
  {
    assert keys[i] !in keys[..i];
    assert keys[..i + 1] == keys[..i] + [keys[i]];
  }

  /** The second loop of the view, `for key in tiers`: every bucket replaced by
      its sorted copy; `keys` is the dictionary's key order. */
  method SortBuckets(tiers: map<string, seq<Character>>, keys: seq<string>)
    returns (sorted: map<string, seq<Character>>)
    requires NoDuplicates(keys) && tiers.Keys == set k | k in keys
    ensures sorted.Keys == tiers.Keys
    ensures forall k :: k in sorted ==> sorted[k] == SortByName(tiers[k])
  {
    sorted := tiers;
    var i := 0;
    while i < |keys|
      invariant i <= |keys|
      invariant SortedUpTo(sorted, tiers, keys[..i])
    {
      var key := keys[i];
      SortStep(sorted, tiers, keys, i);
      sorted := sorted[key := SortByName(sorted[key])];
      i := i + 1;
    }
    assert keys[..i] == keys;
  }

  /** The body of `tier_list`: select, bucket, sort. Each bucket holds exactly
      the selected characters of its tier, ordered by name, equal names in
      table order. `order` is the order of the dictionary's keys, in which the
      page shows the buckets: that of the dictionary literal, `SSS` first and
      `Unranked` last. */
  method TierListing(cs: seq<Character>, q: Query) returns (order: seq<string>, tiers: map<string, seq<Character>>)
    ensures order == TierKeys && NoDuplicates(order)
    ensures tiers.Keys == set k | k in order
    ensures forall k :: k in tiers ==> tiers[k] == SortByName(OfKey(Select(cs, q), BucketKey, k))
    ensures forall k :: k in tiers ==> Ordered(tiers[k])
    ensures forall k, n :: k in tiers ==> OfKey(tiers[k], Name, n) == OfKey(OfKey(Select(cs, q), BucketKey, k), Name, n)
  {
    var characters := Select(cs, q);
    var buckets := Bucket(characters);
    TierKeysAreLetters();
    order := TierKeys;
    tiers := SortBuckets(buckets, order);
    forall k, n | k in tiers
      ensures OfKey(tiers[k], Name, n) == OfKey(OfKey(characters, BucketKey, k), Name, n)
    {
      SortIsStable(buckets[k], n);
    }
  }

  /** A selected character is listed in the bucket of its tier and in no other. */
  lemma ListedOnce(cs: seq<Character>, q: Query, c: Character, k: string)
    requires k in TierKeys
    ensures c in SortByName(OfKey(Select(cs, q), BucketKey, k)) <==>
      c in cs && Matches(c, q) && BucketKey(c) == k
  {
    var b := OfKey(Select(cs, q), BucketKey, k);
    assert c in SortByName(b) <==> c in multiset(SortByName(b));
    OfKeyMembers(Select(cs, q), BucketKey, k, c);
    SelectMembers(cs, q, c);
  }
}
