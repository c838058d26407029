/**
 The format selector of the `/api/video-info` handler: the extraction
 library's raw format list becomes the list of download options shown to
 the user, in four steps:
   1. keep the formats that carry both video and audio;
   2. project each to `{quality, format, size, itag}`;
   3. drop every entry whose quality equals that of an earlier entry;
   4. sort stably, highest resolution first, by `QualityValue`.
 */
module Formats {
  import opened Js
  import opened Sequences

  /** One entry of the library's format list: the fields the selector reads. */
  datatype RawFormat = RawFormat(
    qualityLabel: Option<string>,
    quality: Option<string>,
    container: string,
    contentLength: Option<string>,
    itag: int,
    hasVideo: bool,
    hasAudio: bool)

  /**
   The `size` column: `Unknown` is sent as the text "Неизвестно"; a known
   length is sent as its size in megabytes with two decimals and the
   suffix " MB", a floating-point rendering this model keeps opaque.
   */
  datatype Size = Unknown | Megabytes(contentLength: string)

  /** One download option as the server sends it. */
  datatype FormatOption = FormatOption(quality: Option<string>, format: string, size: Size, itag: int)

  // ---------------------------------------------------------------------
  // Step 1: video and audio together
  // ---------------------------------------------------------------------

  predicate Muxed(f: RawFormat) {
    f.hasVideo && f.hasAudio
  }

  /** `formats.filter(format => format.hasVideo && format.hasAudio)` */
  function KeepMuxed(raw: seq<RawFormat>): (r: seq<RawFormat>)
    ensures forall f :: f in r <==> f in raw && Muxed(f)
    ensures forall f :: Count(r, f) == if Muxed(f) then Count(raw, f) else 0
    ensures IsSubsequence(r, raw)
  {
    if raw == [] then []
    else
      var rest := KeepMuxed(raw[1..]);
      assert forall f :: f in raw <==> f == raw[0] || f in raw[1..];
      if Muxed(raw[0]) then
        assert ([raw[0]] + rest)[1..] == rest;
        [raw[0]] + rest
      else
        SubsequenceWeaken(rest, raw[1..], raw[0]);
        assert [raw[0]] + raw[1..] == raw;
        rest
  }

  // ---------------------------------------------------------------------
  // Step 2: projection
  // ---------------------------------------------------------------------

  /** The object literal built by the `map` callback. */
  function Project(f: RawFormat): (o: FormatOption)
    ensures Truthy(f.qualityLabel) ==> o.quality == f.qualityLabel
    ensures !Truthy(f.qualityLabel) ==> o.quality == f.quality
    ensures o.format == f.container && o.itag == f.itag
    ensures o.size == Unknown <==> !Truthy(f.contentLength)
    ensures o.size.Megabytes? ==> Some(o.size.contentLength) == f.contentLength
  {
    FormatOption(
      if Truthy(f.qualityLabel) then f.qualityLabel else f.quality,
      f.container,
      if Truthy(f.contentLength) then Megabytes(f.contentLength.value) else Unknown,
      f.itag)
  }

  function ProjectAll(fs: seq<RawFormat>): (r: seq<FormatOption>)
    ensures |r| == |fs|
    ensures forall i :: 0 <= i < |fs| ==> r[i] == Project(fs[i])
  {
    if fs == [] then [] else [Project(fs[0])] + ProjectAll(fs[1..])
  }

  // ---------------------------------------------------------------------
  // Step 3: one entry per quality, the first in input order
  // ---------------------------------------------------------------------

  /** `self.findIndex(f => f.quality === q)`: the first index with quality `q`, or -1. */
  function FindIndex(self: seq<FormatOption>, q: Option<string>): (r: int)
    ensures -1 <= r < |self|
    ensures 0 <= r ==> self[r].quality == q
    ensures 0 <= r ==> forall j :: 0 <= j < r ==> self[j].quality != q
    ensures r == -1 <==> forall j :: 0 <= j < |self| ==> self[j].quality != q
  {
    FindIndexFrom(self, q, 0)
  }

  function FindIndexFrom(self: seq<FormatOption>, q: Option<string>, i: nat): (r: int)
    requires i <= |self|
    requires forall j :: 0 <= j < i ==> self[j].quality != q
    ensures -1 <= r < |self|
    ensures 0 <= r ==> self[r].quality == q && forall j :: 0 <= j < r ==> self[j].quality != q
    ensures r == -1 <==> forall j :: 0 <= j < |self| ==> self[j].quality != q
    decreases |self| - i
  {
    if i == |self| then -1
    else if self[i].quality == q then i
    else FindIndexFrom(self, q, i + 1)
  }

  /** Index `i` holds the first occurrence of its quality. */
  predicate IsFirst(self: seq<FormatOption>, i: nat)
    requires i < |self|
  {
    FindIndex(self, self[i].quality) == i
  }

  ghost predicate UniqueQualities(s: seq<FormatOption>) {
    forall i, j :: 0 <= i < j < |s| ==> s[i].quality != s[j].quality
  }

  /**
   `r` is what the filter keeps of the indices from `i` on: exactly the
   entries that are the first of their quality, in order, and so no two
   entries with one quality.
   */
  ghost predicate KeepsFirstFrom(self: seq<FormatOption>, i: nat, r: seq<FormatOption>)
    requires i <= |self|
  {
    && (forall x :: x in r ==> var j := FindIndex(self, x.quality); i <= j && self[j] == x)
    && (forall j :: i <= j < |self| && IsFirst(self, j) ==> self[j] in r)
    && UniqueQualities(r)
    && IsSubsequence(r, self[i..])
    && InFirstOrder(self, r)
  }

  /** The entries of `r` appear in the order of their qualities' first indices in `self`. */
  ghost predicate InFirstOrder(self: seq<FormatOption>, r: seq<FormatOption>) {
    forall k1, k2 :: 0 <= k1 < k2 < |r| ==> FindIndex(self, r[k1].quality) < FindIndex(self, r[k2].quality)
  }

  /**
   `self.filter((format, index, self) => index === self.findIndex(...))`,
   run over the indices from `i` on.
   */
  function DedupFrom(self: seq<FormatOption>, i: nat): (r: seq<FormatOption>)
    requires i <= |self|
    ensures KeepsFirstFrom(self, i, r)
    decreases |self| - i
  {
    if i == |self| then []
    else
      var rest := DedupFrom(self, i + 1);
      if IsFirst(self, i) then
        KeepStep(self, i, rest);
        [self[i]] + rest
      else
        SkipStep(self, i, rest);
        rest
  }

  lemma KeepStep(self: seq<FormatOption>, i: nat, rest: seq<FormatOption>)
    requires i < |self| && IsFirst(self, i) && KeepsFirstFrom(self, i + 1, rest)
    ensures KeepsFirstFrom(self, i, [self[i]] + rest)
  {
    var r := [self[i]] + rest;
    assert self[i..][1..] == self[i + 1..];
    assert r[1..] == rest;
    forall y | y in rest
      ensures y.quality != self[i].quality
    {
      var j := FindIndex(self, y.quality);
      assert i < j;
    }
    UniqueCons(self[i], rest);
    assert forall x :: x in r ==> x == self[i] || x in rest;
    FirstOrderCons(self, i, rest);
  }

  lemma FirstOrderCons(self: seq<FormatOption>, i: nat, rest: seq<FormatOption>)
    requires i < |self| && IsFirst(self, i) && InFirstOrder(self, rest)
    requires forall x :: x in rest ==> i < FindIndex(self, x.quality)
    ensures InFirstOrder(self, [self[i]] + rest)
  {
    var r := [self[i]] + rest;
    forall k1, k2 | 0 <= k1 < k2 < |r|
      ensures FindIndex(self, r[k1].quality) < FindIndex(self, r[k2].quality)
    {
      assert r[k2] == rest[k2 - 1];
      if k1 > 0 {
        assert r[k1] == rest[k1 - 1];
      } else {
        assert rest[k2 - 1] in rest;
      }
    }
  }

  lemma SkipStep(self: seq<FormatOption>, i: nat, rest: seq<FormatOption>)
    requires i < |self| && !IsFirst(self, i) && KeepsFirstFrom(self, i + 1, rest)
    ensures KeepsFirstFrom(self, i, rest)
  {
    SubsequenceWeaken(rest, self[i + 1..], self[i]);
    assert [self[i]] + self[i + 1..] == self[i..];
  }

  /** Step 3 over the whole list. */
  function Dedup(self: seq<FormatOption>): (r: seq<FormatOption>)
    ensures UniqueQualities(r)
    ensures IsSubsequence(r, self)
    ensures forall k :: 0 <= k < |r| ==>
      var j := FindIndex(self, r[k].quality); 0 <= j && r[k] == self[j]
    ensures forall i :: 0 <= i < |self| ==> exists k :: 0 <= k < |r| && r[k].quality == self[i].quality
    ensures InFirstOrder(self, r)
  {
    var r := DedupFrom(self, 0);
    KeptAreFirst(self);
    forall i | 0 <= i < |self|
      ensures exists k :: 0 <= k < |r| && r[k].quality == self[i].quality
    {
      FirstOfQualityKept(self, i);
    }
    r
  }

  /** Every kept entry is the first of its quality. */
  lemma KeptAreFirst(self: seq<FormatOption>)
    ensures var r := DedupFrom(self, 0);
      && UniqueQualities(r) && IsSubsequence(r, self)
      && forall k :: 0 <= k < |r| ==> var j := FindIndex(self, r[k].quality); 0 <= j && r[k] == self[j]
  {
    var r := DedupFrom(self, 0);
    assert self[0..] == self;
    assert forall k :: 0 <= k < |r| ==> r[k] in r;
  }

  /** The first entry with the quality of entry `i` is kept by the filter. */
  lemma FirstOfQualityKept(self: seq<FormatOption>, i: nat)
    requires i < |self|
    ensures exists k :: 0 <= k < |DedupFrom(self, 0)| && DedupFrom(self, 0)[k].quality == self[i].quality
  {
    var r := DedupFrom(self, 0);
    var j := FindIndex(self, self[i].quality);
    assert IsFirst(self, j);
    assert self[j] in r;
    var k :| 0 <= k < |r| && r[k] == self[j];
  }

  /**
   A reference definition of step 3 that does not search: walk the list
   once, remembering the qualities already seen.
   */
  function KeepFirst(s: seq<FormatOption>, seen: set<Option<string>>): seq<FormatOption> {
    if s == [] then []
    else if s[0].quality in seen then KeepFirst(s[1..], seen)
    else [s[0]] + KeepFirst(s[1..], seen + {s[0].quality})
  }

  function QualitiesBefore(self: seq<FormatOption>, i: nat): set<Option<string>>
    requires i <= |self|
  {
    set j | 0 <= j < i :: self[j].quality
  }

  lemma {:induction false} DedupFromIsKeepFirst(self: seq<FormatOption>, i: nat)
    requires i <= |self|
    ensures DedupFrom(self, i) == KeepFirst(self[i..], QualitiesBefore(self, i))
    decreases |self| - i
  {
    if i < |self| {
      DedupFromIsKeepFirst(self, i + 1);
      var tail := self[i..];
      assert tail[0] == self[i] && tail[1..] == self[i + 1..];
      QualitiesBeforeStep(self, i);
      KeepFirstStep(tail, QualitiesBefore(self, i), QualitiesBefore(self, i + 1));
      DedupFromStep(self, i);
    }
  }

  /** One step of the filter. */
  lemma DedupFromStep(self: seq<FormatOption>, i: nat)
    requires i < |self|
    ensures IsFirst(self, i) ==> DedupFrom(self, i) == [self[i]] + DedupFrom(self, i + 1)
    ensures !IsFirst(self, i) ==> DedupFrom(self, i) == DedupFrom(self, i + 1)
  {
  }

  /** One step of the reference walk, with `next` the qualities seen after the head. */
  lemma KeepFirstStep(tail: seq<FormatOption>, seen: set<Option<string>>, next: set<Option<string>>)
    requires tail != [] && next == seen + {tail[0].quality}
    ensures tail[0].quality !in seen ==> KeepFirst(tail, seen) == [tail[0]] + KeepFirst(tail[1..], next)
    ensures tail[0].quality in seen ==> KeepFirst(tail, seen) == KeepFirst(tail[1..], next)
  {
    if tail[0].quality in seen {
      assert next == seen;
    }
  }

  /** Index `i` adds its quality to those seen, and is first exactly when that quality is new. */
  lemma QualitiesBeforeStep(self: seq<FormatOption>, i: nat)
    requires i < |self|
    ensures QualitiesBefore(self, i + 1) == QualitiesBefore(self, i) + {self[i].quality}
    ensures IsFirst(self, i) <==> self[i].quality !in QualitiesBefore(self, i)
  {
    var q := self[i].quality;
    if q in QualitiesBefore(self, i) {
      var j :| 0 <= j < i && self[j].quality == q;
    }
  }

  /** The `findIndex` filter and the one-pass reference agree on every list. */
  lemma DedupIsKeepFirst(self: seq<FormatOption>)
    ensures Dedup(self) == KeepFirst(self, {})
  {
    DedupFromIsKeepFirst(self, 0);
    assert self[0..] == self;
    assert QualitiesBefore(self, 0) == {};
  }

  // ---------------------------------------------------------------------
  // Step 4: highest resolution first
  // ---------------------------------------------------------------------

  /** `sub` occurs in `s` at some position. */
  ghost predicate Occurs(s: string, sub: string) {
    exists i :: SliceAt(s, sub, i)
  }

  /** `s.includes(sub)`, scanning from the left: true exactly when `sub` occurs in `s`. */
  function Includes(s: string, sub: string): (r: bool)
    ensures r <==> Occurs(s, sub)
    decreases |s|
  {
    if |s| < |sub| then
      assert forall i :: !SliceAt(s, sub, i);
      false
    else if s[..|sub|] == sub then
      assert SliceAt(s, sub, 0);
      true
    else
      IncludesStep(s, sub);
      Includes(s[1..], sub)
  }

  /** Past a mismatch at the front, `sub` occurs in `s` exactly when it occurs in the tail. */
  lemma IncludesStep(s: string, sub: string)
    requires |sub| <= |s| && s[..|sub|] != sub
    ensures s != [] && (Occurs(s, sub) <==> Occurs(s[1..], sub))
  {
    if Occurs(s, sub) {
      var i :| SliceAt(s, sub, i);
      SliceInTail(s, sub, i);
    }
    if Occurs(s[1..], sub) {
      var i :| SliceAt(s[1..], sub, i);
      SliceFromTail(s, sub, i);
    }
  }

  lemma SliceInTail(s: string, sub: string, i: int)
    requires SliceAt(s, sub, i) && s[..|sub|] != sub
    ensures SliceAt(s[1..], sub, i - 1)
  {
    assert s[1..][i - 1..i - 1 + |sub|] == s[i..i + |sub|];
  }

  lemma SliceFromTail(s: string, sub: string, i: int)
    requires s != [] && SliceAt(s[1..], sub, i)
    ensures SliceAt(s, sub, i + 1)
  {
    assert s[i + 1..i + 1 + |sub|] == s[1..][i..i + |sub|];
  }

  /** A resolution the key recognises, with the text it looks for. */
  datatype Level = Level(value: nat, marker: string)

  const Levels: seq<Level> := [
    Level(2160, "2160"), Level(1440, "1440"), Level(1080, "1080"),
    Level(720, "720"), Level(480, "480"), Level(360, "360")]

  /** `getQualityValue`: the sort key of a quality. */
  function QualityValue(q: Option<string>): (v: nat)
    ensures v in {0, 360, 480, 720, 1080, 1440, 2160}
    ensures !Truthy(q) ==> v == 0
  {
    if !Truthy(q) then 0
    else if Includes(q.value, "2160") then 2160
    else if Includes(q.value, "1440") then 1440
    else if Includes(q.value, "1080") then 1080
    else if Includes(q.value, "720") then 720
    else if Includes(q.value, "480") then 480
    else if Includes(q.value, "360") then 360
    else 0
  }

  /**
   Because the checks run from the largest resolution down, the key of a
   present quality is the largest listed resolution whose digits occur in
   it, and 0 exactly when none does.
   */
  lemma QualityValueIsLargestLevel(q: Option<string>)
    requires Truthy(q)
    ensures QualityValue(q) > 0 ==> exists l :: l in Levels && l.value == QualityValue(q) && Occurs(q.value, l.marker)
    ensures forall l :: l in Levels && Occurs(q.value, l.marker) ==> l.value <= QualityValue(q)
    ensures QualityValue(q) == 0 <==> forall l :: l in Levels ==> !Occurs(q.value, l.marker)
  {
    forall l | l in Levels
      ensures Includes(q.value, l.marker) <==> Occurs(q.value, l.marker)
    {
    }
  }

  /** The sort key of an option: `getQualityValue` of its quality. */
  function Key(o: FormatOption): nat {
    QualityValue(o.quality)
  }

  /**
   The `sort` comparator: positive exactly when `b` has the larger key and
   so must come before `a`, negative exactly when `a` must come first, and
   zero, which leaves the two in place, exactly when the keys are equal.
   */
  function Compare(a: FormatOption, b: FormatOption): (c: int)
    ensures c > 0 <==> Key(a) < Key(b)
    ensures c < 0 <==> Key(b) < Key(a)
    ensures c == 0 <==> Key(a) == Key(b)
  {
    Key(b) - Key(a)
  }

  /**
   The comparator is consistent in the sense of `Array.prototype.sort`:
   swapping the arguments flips its sign, and "not after" is transitive.
   */
  lemma CompareIsConsistent(a: FormatOption, b: FormatOption, c: FormatOption)
    ensures Compare(a, b) > 0 <==> Compare(b, a) < 0
    ensures Compare(a, b) == 0 <==> Compare(b, a) == 0
    ensures Compare(a, b) <= 0 && Compare(b, c) <= 0 ==> Compare(a, c) <= 0
  {
  }

  ghost predicate SortedByQuality(s: seq<FormatOption>) {
    forall i, j :: 0 <= i < j < |s| ==> Compare(s[i], s[j]) <= 0
  }

  /** The entries of `s` whose key is `v`, in order. */
  function WithKey(s: seq<FormatOption>, v: nat): seq<FormatOption> {
    if s == [] then []
    else (if Key(s[0]) == v then [s[0]] else []) + WithKey(s[1..], v)
  }

  /**
   Inserts `x` into the sorted `t` before the first entry the comparator
   does not place ahead of it, so `x` precedes entries with its key.
   */
  function Insert(x: FormatOption, t: seq<FormatOption>): (r: seq<FormatOption>)
    requires SortedByQuality(t)
    ensures SortedByQuality(r)
    ensures multiset(r) == multiset([x] + t)
  {
    if t == [] then [x]
    else if Compare(x, t[0]) > 0 then
      SortedTail(t);
      var rest := Insert(x, t[1..]);
      HeadBeforeInserted(x, t, rest);
      [t[0]] + rest
    else
      SortedCons(x, t);
      [x] + t
  }

  lemma SortedTail(t: seq<FormatOption>)
    requires t != [] && SortedByQuality(t)
    ensures SortedByQuality(t[1..])
  {
    forall i, j | 0 <= i < j < |t[1..]|
      ensures Compare(t[1..][i], t[1..][j]) <= 0
    {
      assert t[1..][i] == t[i + 1] && t[1..][j] == t[j + 1];
    }
  }

  /** `x` may head a sorted list when the comparator does not put the list's head first. */
  lemma SortedCons(x: FormatOption, t: seq<FormatOption>)
    requires SortedByQuality(t) && (t != [] ==> Compare(x, t[0]) <= 0)
    ensures SortedByQuality([x] + t)
  {
    var r := [x] + t;
    forall i, j | 0 <= i < j < |r|
      ensures Compare(r[i], r[j]) <= 0
    {
      assert r[j] == t[j - 1];
      if i > 0 {
        assert r[i] == t[i - 1];
      } else if j > 1 {
        assert Compare(t[0], t[j - 1]) <= 0;
      }
    }
  }

  /** The head of `t` still leads once `x`, which it outranks, joins the tail. */
  lemma HeadBeforeInserted(x: FormatOption, t: seq<FormatOption>, rest: seq<FormatOption>)
    requires t != [] && SortedByQuality(t) && Compare(x, t[0]) > 0
    requires SortedByQuality(rest) && multiset(rest) == multiset([x] + t[1..])
    ensures SortedByQuality([t[0]] + rest)
    ensures multiset([t[0]] + rest) == multiset([x] + t)
  {
    assert t == [t[0]] + t[1..];
    if rest != [] {
      assert rest[0] in multiset([x] + t[1..]);
      if rest[0] != x {
        var k :| 0 <= k < |t[1..]| && t[1..][k] == rest[0];
        assert t[k + 1] == rest[0];
      }
    }
    SortedCons(t[0], rest);
  }

  /**
   `formats.sort(comparator)`. `Array.prototype.sort` is stable (ECMA-262,
   10th edition onward), and a stable sort by a key has one result, so an
   insertion sort gives the same order as the engine's algorithm.
   */
  function SortByQuality(s: seq<FormatOption>): (r: seq<FormatOption>)
    ensures SortedByQuality(r)
    ensures multiset(r) == multiset(s)
  {
    if s == [] then []
    else
      assert s == [s[0]] + s[1..];
      Insert(s[0], SortByQuality(s[1..]))
  }

  lemma {:induction false} InsertKeepsOrderOfEqualKeys(x: FormatOption, t: seq<FormatOption>, v: nat)
    requires SortedByQuality(t)
    ensures WithKey(Insert(x, t), v) == WithKey([x] + t, v)
    decreases |t|
  {
    if t != [] && Compare(x, t[0]) > 0 {
      SortedTail(t);
      InsertKeepsOrderOfEqualKeys(x, t[1..], v);
      var rest := Insert(x, t[1..]);
      assert Insert(x, t) == [t[0]] + rest;
      PassOtherKey(x, t, rest, v);
    }
  }

  /** Moving `x` past a head of another key does not reorder any key's entries. */
  lemma PassOtherKey(x: FormatOption, t: seq<FormatOption>, rest: seq<FormatOption>, v: nat)
    requires t != [] && Key(t[0]) != Key(x)
    requires WithKey(rest, v) == WithKey([x] + t[1..], v)
    ensures WithKey([t[0]] + rest, v) == WithKey([x] + t, v)
  {
    assert [t[0]] + t[1..] == t;
    WithKeyCons(t[0], rest, v);
    WithKeyCons(t[0], t[1..], v);
    WithKeyCons(x, t[1..], v);
    WithKeyCons(x, t, v);
  }

  /** Prepending an entry adds it to the entries of its own key and to no others. */
  lemma WithKeyCons(a: FormatOption, s: seq<FormatOption>, v: nat)
    ensures Key(a) == v ==> WithKey([a] + s, v) == [a] + WithKey(s, v)
    ensures Key(a) != v ==> WithKey([a] + s, v) == WithKey(s, v)
  {
    assert ([a] + s)[1..] == s;
  }

  /** Stability: entries with equal keys keep their relative order. */
  lemma {:induction false} SortKeepsOrderOfEqualKeys(s: seq<FormatOption>, v: nat)
    ensures WithKey(SortByQuality(s), v) == WithKey(s, v)
    decreases |s|
  {
    if s != [] {
      SortKeepsOrderOfEqualKeys(s[1..], v);
      InsertKeepsOrderOfEqualKeys(s[0], SortByQuality(s[1..]), v);
      assert ([s[0]] + SortByQuality(s[1..]))[1..] == SortByQuality(s[1..]);
      assert s[1..] == ([s[0]] + s[1..])[1..];
    }
  }

  lemma {:induction false} InsertKeepsUniqueQualities(x: FormatOption, t: seq<FormatOption>)
    requires SortedByQuality(t) && UniqueQualities(t)
    requires forall y :: y in t ==> y.quality != x.quality
    ensures UniqueQualities(Insert(x, t))
    decreases |t|
  {
    if t != [] && Compare(x, t[0]) > 0 {
      SortedTail(t);
      UniqueTail(t);
      InsertKeepsUniqueQualities(x, t[1..]);
      var rest := Insert(x, t[1..]);
      assert Insert(x, t) == [t[0]] + rest;
      forall y | y in rest
        ensures y.quality != t[0].quality
      {
        assert y in multiset([x] + t[1..]);
        assert y == x || y in t[1..];
      }
      UniqueCons(t[0], rest);
    } else {
      UniqueCons(x, t);
    }
  }

  lemma UniqueTail(t: seq<FormatOption>)
    requires t != [] && UniqueQualities(t)
    ensures UniqueQualities(t[1..])
    ensures forall y :: y in t[1..] ==> y.quality != t[0].quality
  {
    assert forall k :: 0 <= k < |t[1..]| ==> t[1..][k] == t[k + 1];
  }

  /** A list without repeated qualities stays so when an entry of a new quality leads it. */
  lemma UniqueCons(a: FormatOption, s: seq<FormatOption>)
    requires UniqueQualities(s) && forall y :: y in s ==> y.quality != a.quality
    ensures UniqueQualities([a] + s)
  {
    var r := [a] + s;
    forall i, j | 0 <= i < j < |r|
      ensures r[i].quality != r[j].quality
    {
      assert r[j] == s[j - 1];
      if i > 0 {
        assert r[i] == s[i - 1];
      }
    }
  }

  /** Sorting never puts two entries of one quality into the list. */
  lemma {:induction false} SortKeepsUniqueQualities(s: seq<FormatOption>)
    requires UniqueQualities(s)
    ensures UniqueQualities(SortByQuality(s))
    decreases |s|
  {
    if s != [] {
      SortKeepsUniqueQualities(s[1..]);
      var t := SortByQuality(s[1..]);
      forall y | y in t
        ensures y.quality != s[0].quality
      {
        assert y in multiset(s[1..]);
      }
      InsertKeepsUniqueQualities(s[0], t);
    }
  }

  // ---------------------------------------------------------------------
  // The whole pipeline
  // ---------------------------------------------------------------------

  /** The `formats` field of the `/api/video-info` response. */
  function SelectFormats(raw: seq<RawFormat>): (r: seq<FormatOption>)
    ensures forall o :: o in r ==> exists f :: f in raw && Muxed(f) && Project(f) == o
    ensures forall f :: f in raw && Muxed(f) ==> exists o :: o in r && o.quality == Project(f).quality
    ensures UniqueQualities(r)
    ensures SortedByQuality(r)
  {
    var unique := Dedup(ProjectAll(KeepMuxed(raw)));
    SortKeepsUniqueQualities(unique);
    SelectedComeFromMuxed(raw);
    EveryMuxedQualitySelected(raw);
    SortByQuality(unique)
  }

  /**
   What the pipeline offers for a quality is the first projected format
   with that quality, and options of one key keep the order they had after
   deduplication, which is the order of their qualities' first appearance.
   */
  lemma SelectFormatsKeepsFirst(raw: seq<RawFormat>)
    ensures var p := ProjectAll(KeepMuxed(raw));
      forall o :: o in SelectFormats(raw) ==>
        var j := FindIndex(p, o.quality); 0 <= j && p[j] == o
    ensures forall v :: WithKey(SelectFormats(raw), v) == WithKey(Dedup(ProjectAll(KeepMuxed(raw))), v)
  {
    var p := ProjectAll(KeepMuxed(raw));
    assert SelectFormats(raw) == SortByQuality(Dedup(p));
    SortedAreFirst(p);
    SortedKeepDedupOrder(p);
  }

  /** Every option left after deduplication and sorting is the first entry of its quality. */
  lemma SortedAreFirst(p: seq<FormatOption>)
    ensures forall o :: o in SortByQuality(Dedup(p)) ==>
      var j := FindIndex(p, o.quality); 0 <= j && p[j] == o
  {
    var unique := Dedup(p);
    forall o | o in SortByQuality(unique)
      ensures var j := FindIndex(p, o.quality); 0 <= j && p[j] == o
    {
      assert o in multiset(unique);
      var k :| 0 <= k < |unique| && unique[k] == o;
    }
  }

  lemma SortedKeepDedupOrder(p: seq<FormatOption>)
    ensures forall v :: WithKey(SortByQuality(Dedup(p)), v) == WithKey(Dedup(p), v)
  {
    forall v: nat
      ensures WithKey(SortByQuality(Dedup(p)), v) == WithKey(Dedup(p), v)
    {
      SortKeepsOrderOfEqualKeys(Dedup(p), v);
    }
  }

  lemma SelectedComeFromMuxed(raw: seq<RawFormat>)
    ensures forall o :: o in SortByQuality(Dedup(ProjectAll(KeepMuxed(raw)))) ==>
      exists f :: f in raw && Muxed(f) && Project(f) == o
  {
    var muxed := KeepMuxed(raw);
    var projected := ProjectAll(muxed);
    var unique := Dedup(projected);
    SubsequenceMembers(unique, projected);
    forall o | o in SortByQuality(unique)
      ensures exists f :: f in raw && Muxed(f) && Project(f) == o
    {
      assert o in multiset(unique);
      ProjectedFrom(muxed, o);
    }
  }

  /** Every projected option is the projection of an entry of the list. */
  lemma ProjectedFrom(fs: seq<RawFormat>, o: FormatOption)
    requires o in ProjectAll(fs)
    ensures exists f :: f in fs && Project(f) == o
  {
    var k :| 0 <= k < |fs| && ProjectAll(fs)[k] == o;
    assert fs[k] in fs;
  }

  lemma EveryMuxedQualitySelected(raw: seq<RawFormat>)
    ensures forall f :: f in raw && Muxed(f) ==>
      exists o :: o in SortByQuality(Dedup(ProjectAll(KeepMuxed(raw)))) && o.quality == Project(f).quality
  {
    var muxed := KeepMuxed(raw);
    forall f | f in raw && Muxed(f)
      ensures exists o :: o in SortByQuality(Dedup(ProjectAll(muxed))) && o.quality == Project(f).quality
    {
      assert f in muxed;
      var i :| 0 <= i < |muxed| && muxed[i] == f;
      QualityKept(ProjectAll(muxed), i);
    }
  }

  /** The quality of every entry survives deduplication and sorting. */
  lemma QualityKept(projected: seq<FormatOption>, i: nat)
    requires i < |projected|
    ensures exists o :: o in SortByQuality(Dedup(projected)) && o.quality == projected[i].quality
  {
    var unique := Dedup(projected);
    var k :| 0 <= k < |unique| && unique[k].quality == projected[i].quality;
    assert unique[k] in multiset(SortByQuality(unique));
  }
}
