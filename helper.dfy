/**
 * The utilities of Singular/helper.cpp: a recursive harvester that copies
 * wanted key/value pairs out of a JSON tree into a hash, the text between
 * two markers, and pseudo-random strings and numbers.
 */
module Helper {
  import opened Wrappers
  import opened Numbers

  /** A JSON value that is neither an object nor an array. */
  datatype Scalar = Null | Bool(b: bool) | Number(n: real) | Str(s: string)

  /**
   * A JSON tree. An object lists its members as (key, value) pairs in the
   * order `QJsonObject::keys()` yields them, each key with its value.
   */
  datatype Json =
    | Obj(members: seq<(string, Json)>)
    | Arr(items: seq<Json>)
    | Value(scalar: Scalar)

  /** The `QVariantHash` the harvester fills: key to the JSON value stored under it. */
  type Listings = map<string, Json>

  // ---------------------------------------------------------------------
  // The harvest, as a function of the tree and the listings before it.
  // ---------------------------------------------------------------------

  /**
   * The listings after harvesting tree j into m: objects and arrays are
   * descended into; a scalar reached outside an object member adds nothing.
   */
  function Harvest(j: Json, keys: seq<string>, m: Listings): Listings
    decreases j, 1
  {
    match j
    case Obj(_) => HarvestMembers(j, 0, keys, m)
    case Arr(_) => HarvestItems(j, 0, keys, m)
    case Value(_) => m
  }

  /**
   * The listings after visiting the members of object obj from index i on:
   * an object or array value is descended into, any other value is inserted
   * under its key when that key is wanted.
   */
  function HarvestMembers(obj: Json, i: nat, keys: seq<string>, m: Listings): Listings
    requires obj.Obj? && i <= |obj.members|
    decreases obj, 0, |obj.members| - i
  {
    if i == |obj.members| then m
    else
      var (key, value) := obj.members[i];
      assert value < obj.members[i];
      var m' := if value.Obj? || value.Arr? then Harvest(value, keys, m)
                else if key in keys then m[key := value]
                else m;
      HarvestMembers(obj, i + 1, keys, m')
  }

  /**
   * The listings after visiting the items of array arr from index i on:
   * objects and arrays are descended into, scalars are skipped.
   */
  function HarvestItems(arr: Json, i: nat, keys: seq<string>, m: Listings): Listings
    requires arr.Arr? && i <= |arr.items|
    decreases arr, 0, |arr.items| - i
  {
    if i == |arr.items| then m
    else
      var item := arr.items[i];
      var m' := if item.Obj? || item.Arr? then Harvest(item, keys, m) else m;
      HarvestItems(arr, i + 1, keys, m')
  }

  // ---------------------------------------------------------------------
  // A reference definition: the scalar members in visiting order, inserted
  // one after another.
  // ---------------------------------------------------------------------

  /** The (key, value) pairs of the scalar members of tree j, in visiting order. */
  function Visits(j: Json): seq<(string, Json)>
    decreases j, 1
  {
    match j
    case Obj(_) => MemberVisits(j, 0)
    case Arr(_) => ItemVisits(j, 0)
    case Value(_) => []
  }

  function MemberVisits(obj: Json, i: nat): seq<(string, Json)>
    requires obj.Obj? && i <= |obj.members|
    decreases obj, 0, |obj.members| - i
  {
    if i == |obj.members| then []
    else
      var value := obj.members[i].1;
      assert value < obj.members[i];
      (if value.Obj? || value.Arr? then Visits(value) else [obj.members[i]]) + MemberVisits(obj, i + 1)
  }

  function ItemVisits(arr: Json, i: nat): seq<(string, Json)>
    requires arr.Arr? && i <= |arr.items|
    decreases arr, 0, |arr.items| - i
  {
    if i == |arr.items| then []
    else
      var item := arr.items[i];
      (if item.Obj? || item.Arr? then Visits(item) else []) + ItemVisits(arr, i + 1)
  }

  /** Insert the pairs in order, each only when its key is wanted. */
  function InsertAll(m: Listings, pairs: seq<(string, Json)>, keys: seq<string>): Listings {
    if pairs == [] then m
    else
      var (key, value) := pairs[|pairs| - 1];
      var m' := InsertAll(m, pairs[..|pairs| - 1], keys);
      if key in keys then m'[key := value] else m'
  }

  /** The value of the last pair with key k, if any. */
  function LastValue(pairs: seq<(string, Json)>, k: string): (v: Option<Json>)
    ensures v.Some? ==> (k, v.value) in pairs
  {
    if pairs == [] then None
    else if pairs[|pairs| - 1].0 == k then Some(pairs[|pairs| - 1].1)
    else LastValue(pairs[..|pairs| - 1], k)
  }

  lemma {:induction false} InsertAllAppend(m: Listings, a: seq<(string, Json)>, b: seq<(string, Json)>, keys: seq<string>)
    ensures InsertAll(m, a + b, keys) == InsertAll(InsertAll(m, a, keys), b, keys)
    decreases |b|
  {
    if b == [] {
      assert a + b == a;
    } else {
      assert (a + b)[..|a + b| - 1] == a + b[..|b| - 1];
      InsertAllAppend(m, a, b[..|b| - 1], keys);
    }
  }

  /**
   * After inserting the pairs, a wanted key holds the value of its last pair;
   * every other key is as it was.
   */
  lemma {:induction false} InsertAllLookup(m: Listings, pairs: seq<(string, Json)>, keys: seq<string>, k: string)
    ensures var r := InsertAll(m, pairs, keys);
      if k in keys && LastValue(pairs, k).Some? then k in r && r[k] == LastValue(pairs, k).value
      else (k in r <==> k in m) && (k in m ==> r[k] == m[k])
  {
    if pairs != [] {
      InsertAllLookup(m, pairs[..|pairs| - 1], keys, k);
    }
  }

  /** The harvest inserts the visited scalar members one after another. */
  lemma {:induction false} HarvestIsInsertAll(j: Json, keys: seq<string>, m: Listings)
    ensures Harvest(j, keys, m) == InsertAll(m, Visits(j), keys)
    decreases j, 1
  {
    match j
    case Obj(_) => HarvestMembersIsInsertAll(j, 0, keys, m);
    case Arr(_) => HarvestItemsIsInsertAll(j, 0, keys, m);
    case Value(_) =>
  }

  lemma {:induction false} HarvestMembersIsInsertAll(obj: Json, i: nat, keys: seq<string>, m: Listings)
    requires obj.Obj? && i <= |obj.members|
    ensures HarvestMembers(obj, i, keys, m) == InsertAll(m, MemberVisits(obj, i), keys)
    decreases obj, 0, |obj.members| - i
  {
    if i < |obj.members| {
      var (key, value) := obj.members[i];
      assert value < obj.members[i];
      var head := if value.Obj? || value.Arr? then Visits(value) else [obj.members[i]];
      var m' := if value.Obj? || value.Arr? then Harvest(value, keys, m)
                else if key in keys then m[key := value]
                else m;
      assert MemberVisits(obj, i) == head + MemberVisits(obj, i + 1);
      assert HarvestMembers(obj, i, keys, m) == HarvestMembers(obj, i + 1, keys, m');
      if value.Obj? || value.Arr? {
        HarvestIsInsertAll(value, keys, m);
      } else {
        InsertOne(m, key, value, keys);
      }
      HarvestMembersIsInsertAll(obj, i + 1, keys, m');
      InsertAllAppend(m, head, MemberVisits(obj, i + 1), keys);
    }
  }

  /** Inserting one pair inserts it when its key is wanted. */
  lemma InsertOne(m: Listings, key: string, value: Json, keys: seq<string>)
    ensures InsertAll(m, [(key, value)], keys) == if key in keys then m[key := value] else m
  {
    assert [(key, value)][..0] == [];
  }

  lemma {:induction false} HarvestItemsIsInsertAll(arr: Json, i: nat, keys: seq<string>, m: Listings)
    requires arr.Arr? && i <= |arr.items|
    ensures HarvestItems(arr, i, keys, m) == InsertAll(m, ItemVisits(arr, i), keys)
    decreases arr, 0, |arr.items| - i
  {
    if i < |arr.items| {
      var item := arr.items[i];
      var head := if item.Obj? || item.Arr? then Visits(item) else [];
      var m' := if item.Obj? || item.Arr? then Harvest(item, keys, m) else m;
      if item.Obj? || item.Arr? {
        HarvestIsInsertAll(item, keys, m);
      }
      HarvestItemsIsInsertAll(arr, i + 1, keys, m');
      InsertAllAppend(m, head, ItemVisits(arr, i + 1), keys);
    }
  }

  /** Only scalar values are visited: objects and arrays are descended into instead. */
  lemma {:induction false} VisitsAreScalars(j: Json)
    ensures forall p :: p in Visits(j) ==> p.1.Value?
    decreases j, 1
  {
    match j
    case Obj(_) => MemberVisitsAreScalars(j, 0);
    case Arr(_) => ItemVisitsAreScalars(j, 0);
    case Value(_) =>
  }

  lemma {:induction false} MemberVisitsAreScalars(obj: Json, i: nat)
    requires obj.Obj? && i <= |obj.members|
    ensures forall p :: p in MemberVisits(obj, i) ==> p.1.Value?
    decreases obj, 0, |obj.members| - i
  {
    if i < |obj.members| {
      var value := obj.members[i].1;
      assert value < obj.members[i];
      if value.Obj? || value.Arr? {
        VisitsAreScalars(value);
      }
      MemberVisitsAreScalars(obj, i + 1);
    }
  }

  lemma {:induction false} ItemVisitsAreScalars(arr: Json, i: nat)
    requires arr.Arr? && i <= |arr.items|
    ensures forall p :: p in ItemVisits(arr, i) ==> p.1.Value?
    decreases arr, 0, |arr.items| - i
  {
    if i < |arr.items| {
      var item := arr.items[i];
      if item.Obj? || item.Arr? {
        VisitsAreScalars(item);
      }
      ItemVisitsAreScalars(arr, i + 1);
    }
  }

  /**
   * Insertion overwrites: after the harvest a wanted key that was visited
   * holds the value visited last, and every other key keeps its prior entry
   * (or stays absent).
   */
  lemma HarvestLastWins(j: Json, keys: seq<string>, m: Listings, k: string)
    ensures var r := Harvest(j, keys, m);
      var last := LastValue(Visits(j), k);
      if k in keys && last.Some? then k in r && r[k] == last.value
      else (k in r <==> k in m) && (k in m ==> r[k] == m[k])
  {
    HarvestIsInsertAll(j, keys, m);
    InsertAllLookup(m, Visits(j), keys, k);
  }

  /**
   * Every entry the harvest adds or changes is under a wanted key and holds
   * a scalar found in the tree under that key.
   */
  lemma HarvestInsertsOnlyWantedScalars(j: Json, keys: seq<string>, m: Listings)
    ensures var r := Harvest(j, keys, m);
      forall k :: k in r && (k !in m || r[k] != m[k]) ==>
        k in keys && r[k].Value? && (k, r[k]) in Visits(j)
  {
    var r := Harvest(j, keys, m);
    VisitsAreScalars(j);
    forall k | k in r && (k !in m || r[k] != m[k])
      ensures k in keys && r[k].Value? && (k, r[k]) in Visits(j)
    {
      HarvestLastWins(j, keys, m, k);
    }
  }

  /** Harvesting the same tree twice gives the same listings as harvesting it once. */
  lemma HarvestIdempotent(j: Json, keys: seq<string>, m: Listings)
    ensures Harvest(j, keys, Harvest(j, keys, m)) == Harvest(j, keys, m)
  {
    var once := Harvest(j, keys, m);
    var twice := Harvest(j, keys, once);
    forall k
      ensures (k in twice <==> k in once) && (k in once ==> twice[k] == once[k])
    {
      HarvestLastWins(j, keys, m, k);
      HarvestLastWins(j, keys, once, k);
    }
  }

  /**
   * A scalar item anywhere in an array adds nothing: the array with one more
   * scalar at index t harvests to the same listings as the array without it.
   */
  lemma ScalarItemsIgnored(items: seq<Json>, t: nat, s: Scalar, keys: seq<string>, m: Listings)
    requires t <= |items|
    ensures Harvest(Arr(items[..t] + [Value(s)] + items[t..]), keys, m) == Harvest(Arr(items), keys, m)
  {
    var front, back := items[..t], items[t..];
    assert items == front + back;
    ItemVisitsConcat(front + [Value(s)], back);
    ItemVisitsConcat(front, [Value(s)]);
    ItemVisitsConcat(front, back);
    assert ItemVisits(Arr([Value(s)]), 0) == [] by {
      assert ItemVisits(Arr([Value(s)]), 1) == [];
    }
    var longer := front + [Value(s)] + back;
    assert Visits(Arr(longer)) == ItemVisits(Arr(front), 0) + ItemVisits(Arr(back), 0);
    assert Visits(Arr(longer)) == Visits(Arr(items));
    HarvestIsInsertAll(Arr(longer), keys, m);
    HarvestIsInsertAll(Arr(items), keys, m);
  }

  /** The visits of two arrays joined are the visits of the first, then of the second. */
  lemma ItemVisitsConcat(a: seq<Json>, b: seq<Json>)
    ensures ItemVisits(Arr(a + b), 0) == ItemVisits(Arr(a), 0) + ItemVisits(Arr(b), 0)
  {
    ItemVisitsFront(a, b, 0);
  }

  lemma {:induction false} ItemVisitsFront(a: seq<Json>, b: seq<Json>, i: nat)
    requires i <= |a|
    ensures ItemVisits(Arr(a + b), i) == ItemVisits(Arr(a), i) + ItemVisits(Arr(b), 0)
    decreases |a| - i
  {
    if i == |a| {
      ItemVisitsBack(a, b, 0);
    } else {
      assert (a + b)[i] == a[i];
      ItemVisitsFront(a, b, i + 1);
    }
  }

  lemma {:induction false} ItemVisitsBack(a: seq<Json>, b: seq<Json>, i: nat)
    requires i <= |b|
    ensures ItemVisits(Arr(a + b), |a| + i) == ItemVisits(Arr(b), i)
    decreases |b| - i
  {
    if i < |b| {
      assert (a + b)[|a| + i] == b[i];
      ItemVisitsBack(a, b, i + 1);
    }
  }

  // ---------------------------------------------------------------------
  // The harvest as written: loops that update the listings in place.
  // ---------------------------------------------------------------------

  /** `parse_json_object`: harvest the members of an object into the listings. */
  method ParseJsonObject(obj: Json, keys: seq<string>, listings: Listings) returns (result: Listings)
    requires obj.Obj?
    ensures result == Harvest(obj, keys, listings)
    decreases obj
  {
    result := listings;
    var listingKeys := obj.members;
    for i := 0 to |listingKeys|
      invariant HarvestMembers(obj, i, keys, result) == Harvest(obj, keys, listings)
    {
      var (key, value) := listingKeys[i];
      assert value < listingKeys[i];
      if value.Obj? {
        result := ParseJsonObject(value, keys, result);
      } else if value.Arr? {
        result := ParseJsonArray(value, keys, result);
      } else {
        ghost var before := result;
        var j := 0;
        while j < |keys|
          invariant 0 <= j <= |keys|
          invariant result == before
          invariant key !in keys[..j]
        {
          if key == keys[j] {
            result := result[key := value];
            break;
          }
          j := j + 1;
        }
      }
    }
  }

  /** `parse_json_array`: harvest the objects and arrays inside an array into the listings. */
  method ParseJsonArray(arr: Json, keys: seq<string>, listings: Listings) returns (result: Listings)
    requires arr.Arr?
    ensures result == Harvest(arr, keys, listings)
    decreases arr
  {
    result := listings;
    for i := 0 to |arr.items|
      invariant HarvestItems(arr, i, keys, result) == Harvest(arr, keys, listings)
    {
      var item := arr.items[i];
      if item.Obj? {
        result := ParseJsonObject(item, keys, result);
      } else if item.Arr? {
        result := ParseJsonArray(item, keys, result);
      }
    }
  }

  // ---------------------------------------------------------------------
  // substring: the text between two markers.
  // ---------------------------------------------------------------------

  /** The pattern occurs in the text starting at index p. */
  predicate OccursAt(text: string, pattern: string, p: int) {
    0 <= p && p + |pattern| <= |text| && text[p..p + |pattern|] == pattern
  }

  /**
   * `QString::indexOf(pattern, from)` for from >= 0: the first index at or
   * after from where the pattern occurs, -1 when there is none. An empty
   * pattern is found at from itself unless from lies past the end.
   */
  function IndexOf(text: string, pattern: string, from: nat): (r: int)
    ensures r == -1 || (from <= r && OccursAt(text, pattern, r))
    ensures forall p :: from <= p && (r == -1 || p < r) ==> !OccursAt(text, pattern, p)
    decreases |text| - from
  {
    if from + |pattern| > |text| then -1
    else if text[from..from + |pattern|] == pattern then from
    else IndexOf(text, pattern, from + 1)
  }

  /**
   * `QString::mid(position, n)` for position >= 0: n characters from
   * position, every remaining character when n is negative or runs past
   * the end, and the empty string when position lies past the end.
   */
  function Mid(text: string, position: nat, n: int): (r: string)
    ensures position <= |text| && 0 <= n <= |text| - position ==> r == text[position..position + n]
    ensures position <= |text| && (n < 0 || n > |text| - position) ==> r == text[position..]
    ensures position > |text| ==> r == ""
  {
    if position > |text| then ""
    else if n < 0 || n > |text| - position then text[position..]
    else text[position..position + n]
  }

  /** `substring`: the text after the first start marker, up to the next end marker. */
  function Substring(text: string, start: string, end: string): (r: string)
    ensures var from := IndexOf(text, start, 0) + |start|;
      && (0 <= from <= |text| ==> r <= text[from..])
      && (from > |text| ==> r == "")
  {
    assert OccursAt(text, [], 0);
    var idIndex := IndexOf(text, start, 0) + |start|;
    var idLength := IndexOf(text, end, idIndex) - idIndex;
    Mid(text, idIndex, idLength)
  }

  /**
   * When start occurs first at p and end occurs first at q at or after the
   * end of that start marker, substring returns exactly the characters in
   * between.
   */
  lemma SubstringBetweenMarkers(text: string, start: string, end: string, p: nat, q: nat)
    requires OccursAt(text, start, p) && forall p' :: 0 <= p' < p ==> !OccursAt(text, start, p')
    requires p + |start| <= q && OccursAt(text, end, q)
    requires forall q' :: p + |start| <= q' < q ==> !OccursAt(text, end, q')
    ensures Substring(text, start, end) == text[p + |start|..q]
  {
    assert OccursAt(text, [], 0);
  }

  /**
   * When start occurs first at p but no end marker follows it, substring
   * returns the rest of the text after the start marker.
   */
  lemma SubstringWithoutEnd(text: string, start: string, end: string, p: nat)
    requires OccursAt(text, start, p) && forall p' :: 0 <= p' < p ==> !OccursAt(text, start, p')
    requires forall q :: p + |start| <= q ==> !OccursAt(text, end, q)
    ensures Substring(text, start, end) == text[p + |start|..]
  {
    assert OccursAt(text, [], 0);
  }

  /**
   * When the start marker does not occur at all, indexOf yields -1 and the
   * result is taken from index |start| - 1 on, as if the text began there.
   */
  lemma SubstringWithoutStart(text: string, start: string, end: string)
    requires forall p :: 0 <= p ==> !OccursAt(text, start, p)
    ensures |start| > 0
    ensures var r := Substring(text, start, end);
      if |start| - 1 <= |text| then r == text[|start| - 1..|start| - 1 + |r|] else r == ""
  {
    assert OccursAt(text, [], 0);
  }

  // ---------------------------------------------------------------------
  // Pseudo-random strings and numbers. The successive `qrand()` results are
  // passed in as draws.
  // ---------------------------------------------------------------------

  /** The n consecutive characters from first on. */
  function CharRun(first: char, n: nat): (r: string)
    requires first as int + n <= 0xD800
    ensures |r| == n && forall i :: 0 <= i < n ==> r[i] as int == first as int + i
  {
    seq(n, i requires 0 <= i < n => (first as int + i) as char)
  }

  /** `possible_characters`: the letters A to Z, then a to z, then the digits 0 to 9. */
  const PossibleCharacters: string := CharRun('A', 26) + CharRun('a', 26) + CharRun('0', 10)

  predicate IsAlphanumeric(c: char) {
    ('A' <= c <= 'Z') || ('a' <= c <= 'z') || ('0' <= c <= '9')
  }

  /**
   * `random_string`: length characters, the i-th chosen by the i-th draw
   * modulo the 62 possible characters; empty for a length below 1.
   */
  method RandomString(length: int, draws: seq<nat>) returns (result: string)
    requires length <= |draws|
    ensures |result| == if length < 0 then 0 else length
    ensures forall i :: 0 <= i < |result| ==>
      result[i] == PossibleCharacters[draws[i] % |PossibleCharacters|] && IsAlphanumeric(result[i])
  {
    AlphabetIsAlphanumeric();
    result := "";
    var i := 0;
    while i < length
      invariant 0 <= i && (length >= 0 ==> i <= length) && (length < 0 ==> i == 0)
      invariant |result| == i
      invariant forall t :: 0 <= t < i ==>
        result[t] == PossibleCharacters[draws[t] % |PossibleCharacters|] && IsAlphanumeric(result[t])
    {
      var index := draws[i] % |PossibleCharacters|;
      var nextChar := PossibleCharacters[index];
      result := result + [nextChar];
      i := i + 1;
    }
  }

  /**
   * The possible characters are the 26 upper-case letters, the 26
   * lower-case letters and the 10 digits, in that order.
   */
  lemma AlphabetIsAlphanumeric()
    ensures |PossibleCharacters| == 62
    ensures forall k :: 0 <= k < 26 ==> PossibleCharacters[k] as int == 'A' as int + k
    ensures forall k :: 26 <= k < 52 ==> PossibleCharacters[k] as int == 'a' as int + k - 26
    ensures forall k :: 52 <= k < 62 ==> PossibleCharacters[k] as int == '0' as int + k - 52
    ensures forall k :: 0 <= k < 62 ==> IsAlphanumeric(PossibleCharacters[k])
  {
    var upper, lower, digits := CharRun('A', 26), CharRun('a', 26), CharRun('0', 10);
    assert PossibleCharacters == upper + lower + digits;
    forall k | 0 <= k < 62
      ensures IsAlphanumeric(PossibleCharacters[k])
    {
      if k < 26 {
        assert PossibleCharacters[k] == upper[k];
      } else if k < 52 {
        assert PossibleCharacters[k] == lower[k - 26];
      } else {
        assert PossibleCharacters[k] == digits[k - 52];
      }
    }
  }

  /** Every letter and digit is drawn by some draw: random_string can produce any alphanumeric string. */
  lemma EveryAlphanumericDrawable(c: char)
    requires IsAlphanumeric(c)
    ensures exists d: nat :: d < |PossibleCharacters| && PossibleCharacters[d] == c
  {
    AlphabetIsAlphanumeric();
    if 'A' <= c <= 'Z' {
      assert PossibleCharacters[c as int - 'A' as int] == c;
    } else if 'a' <= c <= 'z' {
      assert PossibleCharacters[c as int - 'a' as int + 26] == c;
    } else {
      assert PossibleCharacters[c as int - '0' as int + 52] == c;
    }
  }

  /** C's `%`: the remainder of division truncated toward zero. */
  function CRem(a: int, b: int): (r: int)
    requires b != 0
    ensures a >= 0 ==> 0 <= r < Abs(b) && r <= a
    ensures exists q :: a == q * b + r
  {
    var r := Abs(a) % Abs(b);
    var q := Abs(a) / Abs(b);
    var rem := if a < 0 then -r else r;
    ModBelow(Abs(a), Abs(b));
    assert Abs(a) == q * Abs(b) + r;
    assert a == (if (a < 0) != (b < 0) then -q else q) * b + rem;
    rem
  }

  lemma ModBelow(x: nat, y: nat)
    requires y > 0
    ensures x % y <= x
  {
  }

  /**
   * `random_number`: the draw reduced into the span high + 1 - low, offset
   * by low. The span must not be 0 (the source would divide by zero).
   */
  function RandomNumber(low: int, high: int, draw: nat): (r: int)
    requires (high + 1) - low != 0
    ensures low <= high ==> low <= r <= high
    ensures low <= r < low + Abs((high + 1) - low)
    ensures r - low <= draw
  {
    CRem(draw, (high + 1) - low) + low
  }

  /**
   * With draws in [0, randMax] (`RAND_MAX`), every value of [low, high] is
   * produced by some draw when the range has at most randMax + 1 values;
   * a value more than randMax above low never is.
   */
  lemma RandomNumberCovers(low: int, high: int, randMax: nat, v: int)
    requires low <= v <= high
    ensures v - low <= randMax ==> exists draw: nat :: draw <= randMax && RandomNumber(low, high, draw) == v
    ensures v - low > randMax ==> forall draw: nat :: draw <= randMax ==> RandomNumber(low, high, draw) != v
  {
    if v - low <= randMax {
      assert RandomNumber(low, high, v - low) == v;
    }
  }
}
