// A cache used by captures alone - each acquires one module and releases it - is
// an exact least-recently-used cache.
module CacheLru {
  import opened Machine
  import opened ModuleCache
  import opened CfiTables

  /** What one capture does to the cache. */
  function Capture(c: Cache, path: string, load: Result<Module>): Cache {
    var a := Acquire(c, path, load);
    if a.handle.Pass? then Release(a.cache, a.handle.value).cache else a.cache
  }

  datatype Use = Use(path: string, load: Result<Module>)

  ghost predicate Fits(h: seq<Use>) {
    forall i :: 0 <= i < |h| ==> |h[i].path| <= MAX_STORED
  }

  function Captures(h: seq<Use>): Cache {
    if h == [] then Fresh()
    else Capture(Captures(h[..|h| - 1]), h[|h| - 1].path, h[|h| - 1].load)
  }

  /** No slot is referenced. */
  ghost predicate Quiet(c: Cache) {
    Sound(c) && forall i :: 0 <= i < CAPACITY ==> c.slots[i].state != Active
  }

  lemma CaptureKeepsQuiet(c: Cache, path: string, load: Result<Module>)
    requires Quiet(c)
    ensures Quiet(Capture(c, path, load))
    ensures Distinct(c.slots) && |path| <= MAX_STORED ==> Distinct(Capture(c, path, load).slots)
    ensures Acquire(c, path, load).handle == Fail(CacheFull) ==> load == Fail(CacheFull)
  {
    hide Choose;
    AcquireKeepsSound(c, path, load);
    if Distinct(c.slots) && |path| <= MAX_STORED {
      AcquireKeepsInv(c, path, load);
    }
    ChooseIsEligible(c.slots, 0, None);
    var a := Acquire(c, path, load);
    if a.handle.Pass? {
      ReleaseKeepsSound(a.cache, a.handle.value);
    }
  }

  /** After any run of captures, whatever its loads yield, every slot is unused or
      warm, and the next capture is never refused for lack of room. */
  lemma {:induction false} CapturesNeverFill(h: seq<Use>, path: string, load: Result<Module>)
    ensures Quiet(Captures(h))
    ensures load != Fail(CacheFull) ==> Acquire(Captures(h), path, load).handle != Fail(CacheFull)
  {
    if h != [] {
      var last := h[|h| - 1];
      CapturesNeverFill(h[..|h| - 1], last.path, last.load);
      CaptureKeepsQuiet(Captures(h[..|h| - 1]), last.path, last.load);
    }
    CaptureKeepsQuiet(Captures(h), path, load);
  }

  /** Every load of the run saw the same files. */
  ghost predicate LoadsFrom(h: seq<Use>, files: string -> Result<Module>) {
    forall k :: 0 <= k < |h| ==> h[k].load == files(h[k].path)
  }

  /** No other captured path is stored as `path`: none that is too long has it as its
      first 511 bytes. */
  ghost predicate Unconfused(h: seq<Use>, path: string) {
    forall k :: 0 <= k < |h| && Stored(h[k].path) == path ==> h[k].path == path
  }

  /** How a capture changes slot `i`. */
  lemma CaptureOnSlot(c: Cache, path: string, load: Result<Module>, i: nat)
    requires Quiet(c) && i < CAPACITY
    ensures var s, t := c.slots[i], Capture(c, path, load).slots[i];
            || t.state == Unused
            || (s.state != Unused && t.path == s.path && t.content == s.content)
            || (t.path == Stored(path) && load == Pass(t.content))
  {
    ChooseIsEligible(c.slots, 0, None);
  }

  /** With unchanging files every resident module is the load of a captured path that
      is stored as the slot's. */
  lemma {:induction false} ResidentWasLoaded(h: seq<Use>, files: string -> Result<Module>, i: nat) returns (k: nat)
    requires LoadsFrom(h, files) && i < CAPACITY && Captures(h).slots[i].state != Unused
    ensures k < |h| && Stored(h[k].path) == Captures(h).slots[i].path
    ensures files(h[k].path) == Pass(Captures(h).slots[i].content)
  {
    hide Capture, Stored;
    k := |h| - 1;
    var before := h[..k];
    CapturesNeverFill(before, h[k].path, h[k].load);
    CaptureOnSlot(Captures(before), h[k].path, h[k].load, i);
    if !(Captures(h).slots[i].path == Stored(h[k].path) && h[k].load == Pass(Captures(h).slots[i].content)) {
      k := ResidentWasLoaded(before, files, i);
    }
  }

  /** After `h` a capture works with its path's own module, or fails as its load does. */
  ghost predicate SeesFile(h: seq<Use>, files: string -> Result<Module>, path: string) {
    var a := Acquire(Captures(h), path, files(path));
    match files(path)
    case Pass(m) => a.handle.Pass? && a.handle.value < CAPACITY && a.cache.slots[a.handle.value].content == m
    case Fail(st) => a.handle == Fail(st)
  }

  /** With unchanging files a capture sees its own file, whatever was captured before,
      when no other captured path is stored as its path. */
  lemma CaptureSeesFile(h: seq<Use>, files: string -> Result<Module>, path: string)
    requires LoadsFrom(h, files) && Unconfused(h, path)
    ensures SeesFile(h, files, path)
  {
    hide Capture, Captures, Stored;
    CapturesNeverFill(h, path, files(path));
    var c := Captures(h);
    ChooseIsEligible(c.slots, 0, None);
    var hit := Find(c.slots, path);
    if hit.Some? {
      var k := ResidentWasLoaded(h, files, hit.value);
    }
  }

  /** After a capture of an over-long path, one of its first 511 bytes is given the
      long path's module. */
  lemma CutPathGetsLongModule(path: string, m: Module, load: Result<Module>)
    requires |path| > MAX_STORED
    ensures !Unconfused([Use(path, Pass(m))], Stored(path))
    ensures var a := Acquire(Captures([Use(path, Pass(m))]), Stored(path), load);
            a.handle.Pass? && a.handle.value < CAPACITY && a.cache.slots[a.handle.value].content == m
  {
    hide Stored, Choose;
    var h := [Use(path, Pass(m))];
    StoredWholeIffItFits(path);
    assert h[0].path == path && h[..0] == [];
    var c := Captures([]);
    assert forall j :: 0 <= j < CAPACITY ==> c.slots[j] == EMPTY_SLOT;
    ChooseIsEligible(c.slots, 0, None);
    assert c.slots[0].state == Unused;
    var i := Choose(c.slots, 0, None).value;
    var d := Captures(h);
    assert d == Capture(c, path, Pass(m));
    assert Holds(d.slots[i], Stored(path)) && d.slots[i].content == m;
    assert forall j :: 0 <= j < CAPACITY && j != i ==> d.slots[j] == EMPTY_SLOT;
  }

  ghost predicate Uses(h: seq<Use>, paths: iset<string>) {
    forall k :: 0 <= k < |h| ==> h[k].path in paths
  }

  /** No path is stored as another of them. */
  ghost predicate NoneStoredAsAnother(paths: iset<string>) {
    forall p, q :: p in paths && q in paths && Stored(p) == q ==> p == q
  }

  /** Captures of given paths always see their own files, whatever those are and whatever
      was captured before, exactly when none of the paths is stored as another. */
  lemma CapturesSeeFilesIff(paths: iset<string>)
    ensures (forall h, files, path ::
               path in paths && Uses(h, paths) && LoadsFrom(h, files) ==> SeesFile(h, files, path))
       <==> NoneStoredAsAnother(paths)
  {
    hide SeesFile, Stored;
    if NoneStoredAsAnother(paths) {
      forall h, files, path | path in paths && Uses(h, paths) && LoadsFrom(h, files) ensures SeesFile(h, files, path) {
        CaptureSeesFile(h, files, path);
      }
    } else {
      var p, q :| p in paths && q in paths && Stored(p) == q && p != q;
      StoredWholeIffItFits(p);
      ConfusedBy(p);
    }
  }

  /** Only the file at `path` loads. */
  function OnlyFile(path: string): string -> Result<Module> {
    p => if p == path then Pass(EMPTY) else Fail(Io)
  }

  /** One capture of the only file that loads. */
  function OnlyCapture(path: string): seq<Use> {
    [Use(path, Pass(EMPTY))]
  }

  /** A failing load of the cut path is hidden by the long path's module. */
  lemma ConfusedBy(path: string)
    requires |path| > MAX_STORED
    ensures LoadsFrom(OnlyCapture(path), OnlyFile(path))
    ensures OnlyFile(path)(Stored(path)) == Fail(Io)
    ensures var a := Acquire(Captures(OnlyCapture(path)), Stored(path), Fail(Io));
            a.handle.Pass? && a.handle.value < CAPACITY && a.cache.slots[a.handle.value].content == EMPTY
    ensures !SeesFile(OnlyCapture(path), OnlyFile(path), Stored(path))
  {
    hide Stored, Acquire, Captures;
    StoredWholeIffItFits(path);
    CutPathGetsLongModule(path, EMPTY, Fail(Io));
  }

  // ---------------------------------------------------------------------
  // The reference: move to front

  function Without(s: seq<string>, p: string): (r: seq<string>)
    ensures |r| <= |s|
    ensures forall x :: x in r <==> x in s && x != p
  {
    if s == [] then []
    else if s[0] == p then Without(s[1..], p)
    else [s[0]] + Without(s[1..], p)
  }

  function Take(s: seq<string>, n: nat): seq<string> {
    if |s| <= n then s else s[..n]
  }

  ghost predicate AllDistinct(s: seq<string>) {
    forall i, j :: 0 <= i < j < |s| ==> s[i] != s[j]
  }

  /** All captured paths, each once, the most recently captured first. */
  function Recency(h: seq<Use>): seq<string> {
    if h == [] then []
    else [h[|h| - 1].path] + Without(Recency(h[..|h| - 1]), h[|h| - 1].path)
  }

  /** What a capture of `p` does to the list of resident paths: to the front if it is
      there; else in front if its load succeeds, the list being cut to sixteen; else the
      last path is lost if the list is full. */
  function Touch(list: seq<string>, p: string, loads: bool): seq<string> {
    if p in list then [p] + Without(list, p)
    else if loads then Take([p] + list, 16)
    else if |list| == 16 then list[..15]
    else list
  }

  /** The resident paths, the most recently captured first. */
  function Lru(h: seq<Use>): seq<string> {
    if h == [] then [] else Touch(Lru(h[..|h| - 1]), h[|h| - 1].path, h[|h| - 1].load.Pass?)
  }

  function Elems<T(!new)>(s: seq<T>): set<T> {
    set x | x in s
  }

  function PathsOf(h: seq<Use>): set<string> {
    set i | 0 <= i < |h| :: h[i].path
  }

  lemma {:induction false} WithoutKeepsDistinct(s: seq<string>, p: string)
    requires AllDistinct(s)
    ensures AllDistinct(Without(s, p))
  {
    if s != [] {
      assert AllDistinct(s[1..]) by {
        assert forall i :: 0 <= i < |s| - 1 ==> s[1..][i] == s[i + 1];
      }
      WithoutKeepsDistinct(s[1..], p);
      var r := Without(s[1..], p);
      forall k | 0 <= k < |r| ensures r[k] != s[0] {
        assert r[k] in s[1..];
      }
    }
  }

  lemma {:induction false} RecencyDistinct(h: seq<Use>)
    ensures AllDistinct(Recency(h))
  {
    if h != [] {
      var p, r := h[|h| - 1].path, Recency(h[..|h| - 1]);
      RecencyDistinct(h[..|h| - 1]);
      WithoutKeepsDistinct(r, p);
      forall k | 0 <= k < |Without(r, p)| ensures Without(r, p)[k] != p {
        assert Without(r, p)[k] in Without(r, p);
      }
    }
  }

  lemma TouchKeepsDistinct(list: seq<string>, p: string, loads: bool)
    requires AllDistinct(list) && |list| <= CAPACITY
    ensures AllDistinct(Touch(list, p, loads)) && |Touch(list, p, loads)| <= CAPACITY
  {
    if p in list {
      WithoutKeepsDistinct(list, p);
      var k :| 0 <= k < |list| && list[k] == p;
      WithoutAt(list, k);
      forall k | 0 <= k < |Without(list, p)| ensures Without(list, p)[k] != p {
        assert Without(list, p)[k] in Without(list, p);
      }
    }
  }

  lemma {:induction false} LruDistinct(h: seq<Use>)
    ensures AllDistinct(Lru(h)) && |Lru(h)| <= CAPACITY
  {
    hide Touch;
    if h != [] {
      LruDistinct(h[..|h| - 1]);
      TouchKeepsDistinct(Lru(h[..|h| - 1]), h[|h| - 1].path, h[|h| - 1].load.Pass?);
    }
  }

  /** Touching a list of at most sixteen paths, in one formula when the path is found or
      its load succeeds. */
  lemma TouchIs(list: seq<string>, p: string, loads: bool)
    requires AllDistinct(list) && |list| <= CAPACITY
    ensures p in list || loads ==> Touch(list, p, loads) == Take([p] + Without(list, p), CAPACITY)
  {
    if p in list {
      var k :| 0 <= k < |list| && list[k] == p;
      WithoutAt(list, k);
    } else {
      WithoutAbsent(list, p);
    }
  }

  /** The sequence with its k-th element taken out. */
  function DropAt<T>(s: seq<T>, k: nat): (r: seq<T>)
    requires k < |s|
    ensures |r| == |s| - 1
    ensures forall l :: 0 <= l < |r| ==> r[l] == s[if l < k then l else l + 1]
  {
    s[..k] + s[k + 1..]
  }

  /** Without `p` the sequence closes up over p's one place. */
  lemma {:induction false} WithoutAt(s: seq<string>, k: nat)
    requires AllDistinct(s) && k < |s|
    ensures Without(s, s[k]) == DropAt(s, k)
  {
    assert forall i :: 0 <= i < |s| - 1 ==> s[1..][i] == s[i + 1];
    if k == 0 {
      WithoutAbsent(s[1..], s[0]);
    } else {
      WithoutAt(s[1..], k - 1);
      assert s[..k] == [s[0]] + s[1..][..k - 1];
    }
  }

  lemma {:induction false} WithoutAbsent(s: seq<string>, p: string)
    requires p !in s
    ensures Without(s, p) == s
  {
    if s != [] {
      WithoutAbsent(s[1..], p);
    }
  }

  /** Rank is reuse distance: the paths before R[k] in the recency list are exactly
      the paths captured since R[k] was last captured. */
  lemma {:induction false} RecencyIsReuse(h: seq<Use>, k: nat) returns (t: nat)
    requires k < |Recency(h)|
    ensures t < |h| && h[t].path == Recency(h)[k]
    ensures PathsOf(h[t + 1..]) == Elems(Recency(h)[..k])
    ensures Recency(h)[k] !in PathsOf(h[t + 1..])
  {
    var before, p := h[..|h| - 1], h[|h| - 1].path;
    var r, w := Recency(before), Without(Recency(before), p);
    RecencyDistinct(before);
    assert Recency(h) == [p] + w;
    if k == 0 {
      t := |h| - 1;
      assert h[t + 1..] == [];
    } else {
      assert Recency(h)[k] == w[k - 1] && w[k - 1] in r;
      var j :| 0 <= j < |r| && r[j] == w[k - 1];
      t := RecencyIsReuse(before, j);
      ReuseStep(h, r, w, t, j, k);
    }
  }

  lemma ReuseStep(h: seq<Use>, r: seq<string>, w: seq<string>, t: nat, j: nat, k: nat)
    requires h != [] && w == Without(r, h[|h| - 1].path) && AllDistinct(r)
    requires t < |h| - 1 && j < |r| && 0 < k <= |w| && r[j] == w[k - 1]
    requires PathsOf(h[..|h| - 1][t + 1..]) == Elems(r[..j])
    ensures PathsOf(h[t + 1..]) == Elems(([h[|h| - 1].path] + w)[..k])
    ensures w[k - 1] !in PathsOf(h[t + 1..])
  {
    hide Without, PathsOf;
    var p := h[|h| - 1].path;
    var since := h[..|h| - 1][t + 1..];
    assert h[t + 1..] == since + [h[|h| - 1]];
    PathsSnoc(since, h[|h| - 1]);
    RankAfterRemoval(r, p, j, k - 1);
    assert ([p] + w)[..k] == [p] + w[..k - 1];
    assert Elems([p] + w[..k - 1]) == {p} + Elems(w[..k - 1]);
    assert r[j] !in r[..j];
    assert w[k - 1] in w;
  }

  lemma PathsSnoc(h: seq<Use>, u: Use)
    ensures PathsOf(h + [u]) == PathsOf(h) + {u.path}
  {
    assert forall i :: 0 <= i < |h| ==> (h + [u])[i] == h[i];
    assert (h + [u])[|h|] == u;
  }

  /** The elements before one element are the same with `p` removed or not, but
      for `p` itself. */
  lemma RankAfterRemoval(r: seq<string>, p: string, j: nat, k: nat)
    requires AllDistinct(r) && j < |r| && k < |Without(r, p)| && r[j] == Without(r, p)[k]
    ensures Elems(Without(r, p)[..k]) == Elems(r[..j]) - {p}
  {
    hide Without;
    if p in r {
      var i :| 0 <= i < |r| && r[i] == p;
      WithoutAt(r, i);
      RankAfterDrop(r, i, j, k);
    } else {
      WithoutAbsent(r, p);
    }
  }

  lemma RankAfterDrop(r: seq<string>, i: nat, j: nat, k: nat)
    requires AllDistinct(r) && i < |r| && j < |r| && k < |r| - 1 && r[j] == DropAt(r, i)[k]
    ensures Elems(DropAt(r, i)[..k]) == Elems(r[..j]) - {r[i]}
  {
    var w := DropAt(r, i);
    assert j == if k < i then k else k + 1;
    if k < i {
      assert w[..k] == r[..j];
    } else {
      assert w[..k] == r[..i] + r[i + 1..j];
      assert r[..j] == r[..i] + [r[i]] + r[i + 1..j];
    }
  }

  // ---------------------------------------------------------------------
  // The cache keeps the front of the recency list

  /** Warm entries for `paths`, in the slots `where`, latest released first. */
  ghost predicate Listing(slots: seq<Slot>, paths: seq<string>, where: seq<nat>) {
    && |where| == |paths|
    && (forall k :: 0 <= k < |where| ==>
          where[k] < |slots| && slots[where[k]].state == Warm && slots[where[k]].path == paths[k])
    && (forall k, l :: 0 <= k < l < |where| ==>
          where[k] != where[l] && slots[where[k]].warmSeq > slots[where[l]].warmSeq)
  }

  /** `recent` lists all resident paths, and recent[k] is in slot where[k]. */
  ghost predicate Ranked(c: Cache, recent: seq<string>, where: seq<nat>) {
    && |recent| <= CAPACITY
    && Listing(c.slots, recent, where)
    && (forall i :: 0 <= i < CAPACITY && c.slots[i].state != Unused ==> i in where)
  }

  lemma ListingWithout(slots: seq<Slot>, paths: seq<string>, where: seq<nat>, k: nat)
    requires Listing(slots, paths, where) && k < |where|
    ensures Listing(slots, DropAt(paths, k), DropAt(where, k))
    ensures forall j :: j in DropAt(where, k) <==> j in where && j != where[k]
  {
    hide DropAt;
    var keep := DropAt(where, k);
    forall j | j in where && j != where[k] ensures j in keep {
      var l :| 0 <= l < |where| && where[l] == j;
      assert keep[if l < k then l else l - 1] == j;
    }
  }

  lemma ListingPrefix(slots: seq<Slot>, paths: seq<string>, where: seq<nat>, n: nat)
    requires Listing(slots, paths, where) && n <= |where|
    ensures Listing(slots, paths[..n], where[..n])
  {
  }

  /** A list survives changes to other slots, and takes a later entry in front. */
  lemma ListingFront(slots: seq<Slot>, slots': seq<Slot>, path: string, i: nat, paths: seq<string>, where: seq<nat>)
    requires |slots| == |slots'| && i < |slots|
    requires Listing(slots, paths, where) && i !in where
    requires forall j :: 0 <= j < |slots| && j != i ==> slots'[j] == slots[j]
    requires slots'[i].state == Warm && slots'[i].path == path
    requires forall k :: 0 <= k < |where| ==> slots[where[k]].warmSeq < slots'[i].warmSeq
    ensures Listing(slots', [path] + paths, [i] + where)
  {
    var where', paths' := [i] + where, [path] + paths;
    assert forall k :: 0 <= k < |where| ==> slots'[where[k]] == slots[where[k]];
    assert forall k :: 1 <= k < |where'| ==> where'[k] == where[k - 1] && paths'[k] == paths[k - 1];
  }

  /** Resident paths are exactly those listed. */
  lemma RankedMeansResident(c: Cache, recent: seq<string>, where: seq<nat>, p: string)
    requires Ranked(c, recent, where)
    ensures p in recent <==> Find(c.slots, p).Some?
  {
    if p in recent {
      var k :| 0 <= k < |recent| && recent[k] == p;
      assert Holds(c.slots[where[k]], p);
    }
    if Find(c.slots, p).Some? {
      var i := Find(c.slots, p).value;
      var k :| 0 <= k < |where| && where[k] == i;
      assert recent[k] == p;
    }
  }

  /** As many distinct slots as there are leave none out; fewer leave one. */
  lemma ListedCount(where: seq<nat>, n: nat)
    requires forall k :: 0 <= k < |where| ==> where[k] < n
    requires forall k, l :: 0 <= k < l < |where| ==> where[k] != where[l]
    ensures |where| <= n
    ensures (forall i: nat :: i < n ==> i in where) <==> |where| == n
  {
    hide Below;
    SetOfDistinct(where);
    SubsetSize(Elems(where), Below(n));
    assert Elems(where) <= Below(n);
    if forall i: nat :: i < n ==> i in where {
      assert Elems(where) == Below(n);
    }
    if Elems(where) == Below(n) {
      forall i: nat | i < n ensures i in where {
        assert i in Below(n);
      }
    }
  }

  lemma {:induction false} SetOfDistinct(s: seq<nat>)
    requires forall k, l :: 0 <= k < l < |s| ==> s[k] != s[l]
    ensures |Elems(s)| == |s|
  {
    if s != [] {
      var n := |s| - 1;
      SetOfDistinct(s[..n]);
      assert s[n] !in s[..n];
      assert Elems(s) == Elems(s[..n]) + {s[n]};
    }
  }

  function Below(n: nat): (r: set<nat>)
    ensures |r| == n
    ensures forall i: nat :: i in r <==> i < n
  {
    if n == 0 then {} else Below(n - 1) + {n - 1}
  }

  lemma SubsetSize(a: set<nat>, b: set<nat>)
    requires a <= b
    ensures |a| <= |b| && (|a| == |b| <==> a == b)
  {
    assert b == a + (b - a);
  }

  /** The cache after a capture that loads or finds its module in slot `i`. */
  lemma CaptureInto(c: Cache, path: string, load: Result<Module>) returns (i: nat)
    requires Quiet(c) && |path| <= MAX_STORED
    requires load.Pass? || Find(c.slots, path).Some?
    ensures i < CAPACITY
    ensures Capture(c, path, load).slots[i].state == Warm && Capture(c, path, load).slots[i].path == path
    ensures Capture(c, path, load).slots[i].warmSeq == c.clock + 1
    ensures forall j :: 0 <= j < CAPACITY && j != i ==> Capture(c, path, load).slots[j] == c.slots[j]
    ensures Find(c.slots, path) == Some(i) || (Find(c.slots, path).None? && Eligible(c.slots, i))
  {
    ChooseIsEligible(c.slots, 0, None);
    i := Acquire(c, path, load).handle.value;
  }

  /** Moving slot `i` to the front keeps the ranking of the slots kept. */
  lemma FrontRanked(c: Cache, d: Cache, path: string, i: nat, keepPaths: seq<string>, keep: seq<nat>)
    requires i < CAPACITY && Inv(c)
    requires d.slots[i].state == Warm && d.slots[i].path == path && d.slots[i].warmSeq == c.clock + 1
    requires forall j :: 0 <= j < CAPACITY && j != i ==> d.slots[j] == c.slots[j]
    requires |keepPaths| < CAPACITY && Listing(c.slots, keepPaths, keep) && i !in keep
    requires forall j :: 0 <= j < CAPACITY && j != i && c.slots[j].state != Unused ==> j in keep
    ensures Ranked(d, [path] + keepPaths, [i] + keep)
  {
    forall k | 0 <= k < |keep| ensures c.slots[keep[k]].warmSeq < d.slots[i].warmSeq {
      assert SlotInv(c.slots[keep[k]], c.clock);
    }
    ListingFront(c.slots, d.slots, path, i, keepPaths, keep);
    hide Listing, Inv;
    forall j | 0 <= j < CAPACITY && d.slots[j].state != Unused ensures j in [i] + keep {
      assert j == i || j in keep;
    }
  }

  /** A capture of the module in slot where[k] moves it to the front. */
  lemma HitRanked(c: Cache, d: Cache, recent: seq<string>, where: seq<nat>, k: nat)
    requires Inv(c) && Ranked(c, recent, where) && AllDistinct(recent) && k < |where| == |recent|
    requires where[k] < CAPACITY
    requires var i := where[k];
             && d.slots[i].state == Warm && d.slots[i].path == recent[k] && d.slots[i].warmSeq == c.clock + 1
             && forall j :: 0 <= j < CAPACITY && j != i ==> d.slots[j] == c.slots[j]
    ensures Ranked(d, Take([recent[k]] + Without(recent, recent[k]), CAPACITY), [where[k]] + DropAt(where, k))
  {
    hide Inv, Without, DropAt, AllDistinct, Listing;
    WithoutAt(recent, k);
    ListingWithout(c.slots, recent, where, k);
    FrontRanked(c, d, recent[k], where[k], DropAt(recent, k), DropAt(where, k));
  }

  /** A capture into an unused slot puts it in front of all others. */
  lemma FillRanked(c: Cache, d: Cache, recent: seq<string>, where: seq<nat>, path: string, i: nat)
    requires Inv(c) && Ranked(c, recent, where) && i < CAPACITY && c.slots[i].state == Unused
    requires d.slots[i].state == Warm && d.slots[i].path == path && d.slots[i].warmSeq == c.clock + 1
    requires forall j :: 0 <= j < CAPACITY && j != i ==> d.slots[j] == c.slots[j]
    ensures Ranked(d, Take([path] + recent, CAPACITY), [i] + where)
  {
    hide Inv;
    ListedCount(where, CAPACITY);
    assert i !in where;
    hide Listing;
    FrontRanked(c, d, path, i, recent, where);
  }

  /** With no slot unused the victim is the slot listed last. */
  lemma EvictRanked(c: Cache, d: Cache, recent: seq<string>, where: seq<nat>, path: string, i: nat)
    requires Inv(c) && Ranked(c, recent, where) && Eligible(c.slots, i) && c.slots[i].state == Warm
    requires d.slots[i].state == Warm && d.slots[i].path == path && d.slots[i].warmSeq == c.clock + 1
    requires forall j :: 0 <= j < CAPACITY && j != i ==> d.slots[j] == c.slots[j]
    ensures |where| == CAPACITY
    ensures Ranked(d, Take([path] + recent, CAPACITY), [i] + where[..15])
  {
    hide WarmOrdered, Distinct;
    ListedCount(where, CAPACITY);
    VictimIsLast(c, recent, where, i);
    assert where == where[..15] + [i];
    ListingPrefix(c.slots, recent, where, 15);
    FrontRanked(c, d, path, i, recent[..15], where[..15]);
    assert [path] + recent[..15] == Take([path] + recent, CAPACITY);
  }

  lemma VictimIsLast(c: Cache, recent: seq<string>, where: seq<nat>, i: nat)
    requires WarmOrdered(c.slots)
    requires Ranked(c, recent, where) && Eligible(c.slots, i) && c.slots[i].state == Warm && |where| == CAPACITY
    ensures where[15] == i
  {
    var k :| 0 <= k < |where| && where[k] == i;
    assert c.slots[where[k]].warmSeq >= c.slots[where[15]].warmSeq;
    assert c.slots[where[15]].state == Warm;
  }

  /** A capture whose load fails leaves a cache with room alone, and otherwise loses
      the entry listed last. */
  lemma FailedRanked(c: Cache, recent: seq<string>, where: seq<nat>, path: string, load: Result<Module>)
    returns (where': seq<nat>)
    requires Quiet(c) && Ranked(c, recent, where) && Find(c.slots, path).None? && load.Fail?
    ensures Ranked(Capture(c, path, load), if |recent| == CAPACITY then recent[..15] else recent, where')
  {
    hide Capture, Find, SlotInv, Eligible;
    var i := FailedInto(c, path, load);
    ListedCount(where, CAPACITY);
    if |recent| == CAPACITY {
      assert i in where;
      VictimIsLast(c, recent, where, i);
      where' := where[..15];
      assert where == where' + [i];
      ListingPrefix(c.slots, recent, where, 15);
    } else {
      where' := where;
      AllUsed(c, i);
    }
  }

  /** A failing load clears the slot it would have gone to, if that is in use. */
  lemma FailedInto(c: Cache, path: string, load: Result<Module>) returns (i: nat)
    requires Quiet(c) && Find(c.slots, path).None? && load.Fail?
    ensures i < CAPACITY && Eligible(c.slots, i)
    ensures Capture(c, path, load) == if c.slots[i].state == Warm then c.(slots := c.slots[i := EMPTY_SLOT]) else c
  {
    hide Choose, Find;
    ChooseIsEligible(c.slots, 0, None);
    assert c.slots[0].state != Active;
    i := Choose(c.slots, 0, None).value;
  }

  lemma AllUsed(c: Cache, i: nat)
    requires Eligible(c.slots, i) && exists j :: 0 <= j < CAPACITY && c.slots[j].state == Unused
    ensures c.slots[i].state == Unused
  {
  }

  lemma CaptureRanked(c: Cache, recent: seq<string>, where: seq<nat>, path: string, load: Result<Module>)
    returns (where': seq<nat>)
    requires Quiet(c) && Distinct(c.slots) && Ranked(c, recent, where) && AllDistinct(recent)
    requires |path| <= MAX_STORED
    ensures Ranked(Capture(c, path, load), Touch(recent, path, load.Pass?), where')
  {
    RankedMeansResident(c, recent, where, path);
    TouchIs(recent, path, load.Pass?);
    if path !in recent && load.Fail? {
      assert |recent| <= CAPACITY;
      hide Capture, Ranked;
      where' := FailedRanked(c, recent, where, path, load);
      return;
    }
    hide Capture, Without, Find, Ranked, Touch;
    var d := Capture(c, path, load);
    var i := CaptureInto(c, path, load);
    if path in recent {
      var k := RankOf(c, recent, where, path, i);
      HitRanked(c, d, recent, where, k);
      where' := [i] + DropAt(where, k);
    } else {
      WithoutAbsent(recent, path);
      if c.slots[i].state == Unused {
        FillRanked(c, d, recent, where, path, i);
        where' := [i] + where;
      } else {
        EvictRanked(c, d, recent, where, path, i);
        where' := [i] + where[..15];
      }
    }
  }

  lemma RankOf(c: Cache, recent: seq<string>, where: seq<nat>, path: string, i: nat) returns (k: nat)
    requires Ranked(c, recent, where) && path in recent && Inv(c) && Find(c.slots, path) == Some(i)
    ensures k < |recent| == |where| && recent[k] == path && where[k] == i
  {
    k :| 0 <= k < |recent| && recent[k] == path;
    assert Holds(c.slots[where[k]], path) && Holds(c.slots[i], path);
    assert Distinct(c.slots);
  }

  /** Keeping only the front of the list is enough to maintain its front. */
  lemma TakeTouch(r: seq<string>, p: string, n: nat)
    requires AllDistinct(r) && n > 0
    ensures Take([p] + Without(Take(r, n), p), n) == Take([p] + Without(r, p), n)
  {
    var f := Take(r, n);
    assert AllDistinct(f);
    if p in r {
      var k :| 0 <= k < |r| && r[k] == p;
      WithoutAt(r, k);
      if k < |f| {
        WithoutAt(f, k);
      } else {
        WithoutAbsent(f, p);
      }
    } else {
      WithoutAbsent(r, p);
      WithoutAbsent(f, p);
    }
  }

  lemma {:induction false} CapturesRanked(h: seq<Use>) returns (where: seq<nat>)
    requires Fits(h)
    ensures Quiet(Captures(h)) && Distinct(Captures(h).slots)
    ensures Ranked(Captures(h), Lru(h), where)
  {
    hide Capture, Touch, Ranked, Distinct;
    if h == [] {
      where := NothingRanked();
    } else {
      var before, u := h[..|h| - 1], h[|h| - 1];
      var w := CapturesRanked(before);
      LruDistinct(before);
      CaptureKeepsQuiet(Captures(before), u.path, u.load);
      where := CaptureRanked(Captures(before), Lru(before), w, u.path, u.load);
    }
  }

  lemma NothingRanked() returns (where: seq<nat>)
    ensures Quiet(Fresh()) && Distinct(Fresh().slots) && Ranked(Fresh(), [], where)
  {
    where := [];
  }

  /** The slot machine is an exact LRU cache, whatever its loads yield: the resident
      paths are those of the reference list, which loses its last path to a failing load
      when it is full. */
  lemma ExactLru(h: seq<Use>, p: string)
    requires Fits(h)
    ensures Find(Captures(h).slots, p).Some? <==> p in Lru(h)
  {
    var where := CapturesRanked(h);
    RankedMeansResident(Captures(h), Lru(h), where, p);
  }

  ghost predicate LoadsSucceed(h: seq<Use>) {
    forall i :: 0 <= i < |h| ==> h[i].load.Pass?
  }

  /** When loads succeed the list is the front of the recency list: the sixteen most
      recently captured distinct paths. */
  lemma {:induction false} LruIsRecencyFront(h: seq<Use>)
    requires LoadsSucceed(h)
    ensures Lru(h) == Take(Recency(h), 16)
  {
    if h != [] {
      var before, u := h[..|h| - 1], h[|h| - 1];
      LruIsRecencyFront(before);
      LruDistinct(before);
      RecencyDistinct(before);
      TouchIs(Lru(before), u.path, true);
      TakeTouch(Recency(before), u.path, CAPACITY);
    }
  }

  lemma {:induction false} RecencyCovers(h: seq<Use>, t: nat)
    requires t < |h|
    ensures h[t].path in Recency(h)
  {
    var n := |h| - 1;
    assert Recency(h) == [h[n].path] + Without(Recency(h[..n]), h[n].path);
    if t < n {
      RecencyCovers(h[..n], t);
      assert h[t].path != h[n].path ==> h[t].path in Without(Recency(h[..n]), h[n].path);
    }
  }

  lemma {:induction false} PrefixSize(s: seq<string>, k: nat)
    requires AllDistinct(s) && k <= |s|
    ensures |Elems(s[..k])| == k
  {
    if k > 0 {
      PrefixSize(s, k - 1);
      assert s[k - 1] !in s[..k - 1];
      ElemsSnoc(s, k);
    }
  }

  lemma ElemsSnoc(s: seq<string>, k: nat)
    requires 0 < k <= |s|
    ensures Elems(s[..k]) == Elems(s[..k - 1]) + {s[k - 1]}
  {
    assert s[..k] == s[..k - 1] + [s[k - 1]];
  }

  /** `t` is the last capture of `p`, and fewer than sixteen other paths were
      captured after it. */
  ghost predicate RecentlyUsed(h: seq<Use>, p: string, t: nat) {
    t < |h| && h[t].path == p && p !in PathsOf(h[t + 1..]) && |PathsOf(h[t + 1..])| < 16
  }

  /** The same, by counting in the history: a path is resident exactly when it was
      captured and fewer than sixteen distinct other paths have been since. */
  lemma ResidentIffRecentlyUsed(h: seq<Use>, p: string)
    requires Fits(h) && LoadsSucceed(h)
    ensures Find(Captures(h).slots, p).Some? <==> exists t: nat :: RecentlyUsed(h, p, t)
  {
    hide Captures, Recency, Lru, Find, PathsOf;
    ExactLru(h, p);
    LruIsRecencyFront(h);
    RecencyDistinct(h);
    var r := Recency(h);
    if p in Take(r, CAPACITY) {
      var k :| 0 <= k < |Take(r, CAPACITY)| && Take(r, CAPACITY)[k] == p;
      var t := RecencyIsReuse(h, k);
      PrefixSize(r, k);
      assert RecentlyUsed(h, p, t);
    }
    if exists t: nat :: RecentlyUsed(h, p, t) {
      var t: nat :| RecentlyUsed(h, p, t);
      RecencyCovers(h, t);
      var k :| 0 <= k < |r| && r[k] == p;
      var u := RecencyIsReuse(h, k);
      LastUseUnique(h, p, t, u);
      PrefixSize(r, k);
      assert Take(r, CAPACITY)[k] == p;
    }
  }

  lemma LastUseUnique(h: seq<Use>, p: string, t: nat, u: nat)
    requires t < |h| && h[t].path == p && p !in PathsOf(h[t + 1..])
    requires u < |h| && h[u].path == p && p !in PathsOf(h[u + 1..])
    ensures t == u
  {
    NotUsedAfter(h, p, t);
    NotUsedAfter(h, p, u);
  }

  lemma NotUsedAfter(h: seq<Use>, p: string, t: nat)
    requires t < |h| && p !in PathsOf(h[t + 1..])
    ensures forall j :: t < j < |h| ==> h[j].path != p
  {
    assert forall j :: t < j < |h| ==> h[j] == h[t + 1..][j - t - 1];
  }
}
