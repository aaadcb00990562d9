/** The cache-backed URL store (internal/models/store/store.go).

    The store keeps every record ever created in a map from short code to
    record, seeded from the database when the store is built. The database
    is modelled by the rows it holds; whether a query, a row scan or an
    insert fails is left open (a nondeterministic choice), the clock is the
    parameter `now`, and random draws come from `Alphabet.Intn`. */
module Store {
  import opened Models
  import opened Alphabet

  /** The errors a store operation can report. `ErrDatabase` stands for any
      error the database driver returns; `ErrRetriesExhausted` exists only in
      this model (see `CreateShortURL`). */
  datatype Error = ErrNotExists | ErrURLExpired | ErrDatabase | ErrRetriesExhausted

  datatype Result<+T> = Ok(value: T) | Err(error: Error)

  /** The length of every generated short code. */
  const ShortURLLen: nat := 6

  // ---------------------------------------------------------------------
  // Expiry, as a predicate of a record and the current time
  // ---------------------------------------------------------------------

  /** The redirect path's test: an expiry is set and `now` is strictly after
      it (`time.Now().After(*ExpiresOn)`). */
  predicate Expired(r: URLData, now: Time): (b: bool)
    ensures r.expiresOn.None? ==> !b
    ensures b ==> r.expiresOn.value < now
  {
    r.expiresOn.Some? && now > r.expiresOn.value
  }

  /** The listing query's filter: `expires_on IS NULL OR expires_on > now`. */
  predicate IsActive(r: URLData, now: Time): (b: bool)
    ensures r.expiresOn.None? ==> b
    ensures b ==> !Expired(r, now)
  {
    r.expiresOn.None? || r.expiresOn.value > now
  }

  /** Once expired, a record stays expired; once left out of the listing, it
      stays left out. */
  lemma ExpiryIsPermanent(r: URLData, now: Time, later: Time)
    requires now <= later
    ensures Expired(r, now) ==> Expired(r, later)
    ensures !IsActive(r, now) ==> !IsActive(r, later)
  {
  }

  /** The two tests disagree at exactly one instant: a record whose expiry
      equals `now` is still resolved by `GetRedirectData` but already left out
      by `All`. At every other time they are complements. */
  lemma ExpiryTestsDisagreeOnlyAtExpiry(r: URLData, now: Time)
    ensures (!Expired(r, now) && !IsActive(r, now)) <==> r.expiresOn == Some(now)
    ensures !(Expired(r, now) && IsActive(r, now))
  {
  }

  // ---------------------------------------------------------------------
  // The record built by CreateShortURL
  // ---------------------------------------------------------------------

  /** The expiry of a record created at `createdOn` with duration `expiry`:
      set only for a positive duration. */
  function ExpiryOf(createdOn: Time, expiry: Duration): (e: Option<Time>)
    ensures e.Some? <==> expiry > 0
    ensures e.Some? ==> e.value > createdOn && e.value - createdOn == expiry
  {
    if expiry > 0 then Some(createdOn + expiry) else None
  }

  /** The record `CreateShortURL` stores for `code`. */
  function NewRecord(code: string, url: string, title: string, createdOn: Time, expiry: Duration): (r: URLData)
    ensures r.shortCode == code && r.url == url && r.title == title && r.createdOn == createdOn
    ensures r.expiresOn.Some? <==> expiry > 0
    ensures r.expiresOn.Some? ==> r.expiresOn.value == createdOn + expiry
  {
    URLData(code, url, title, createdOn, ExpiryOf(createdOn, expiry))
  }

  // ---------------------------------------------------------------------
  // Seeding the cache from database rows
  // ---------------------------------------------------------------------

  /** The cache after writing `rows` into `cache` one after another, each
      keyed by its own short code, so a later row with the same code
      overwrites an earlier one. */
  function LoadRows(cache: map<string, URLData>, rows: seq<URLData>): (r: map<string, URLData>)
    ensures cache.Keys <= r.Keys
    decreases |rows|
  {
    if rows == [] then cache
    else
      var last := rows[|rows| - 1];
      LoadRows(cache, rows[..|rows| - 1])[last.shortCode := last]
  }

  /** The short codes occurring in `rows`. */
  function Codes(rows: seq<URLData>): set<string> {
    set r | r in rows :: r.shortCode
  }

  /** No two rows share a short code (the table's primary key). */
  predicate DistinctCodes(rows: seq<URLData>) {
    forall i, j :: 0 <= i < j < |rows| ==> rows[i].shortCode != rows[j].shortCode
  }

  /** Loading adds exactly the codes of the rows as keys. */
  lemma {:induction false} LoadRowsKeys(cache: map<string, URLData>, rows: seq<URLData>)
    ensures LoadRows(cache, rows).Keys == cache.Keys + Codes(rows)
    decreases |rows|
  {
    if rows != [] {
      var n := |rows| - 1;
      assert rows == rows[..n] + [rows[n]];
      assert Codes(rows) == Codes(rows[..n]) + {rows[n].shortCode};
      LoadRowsKeys(cache, rows[..n]);
    }
  }

  /** Loading keeps the entry of every code the rows do not mention. */
  lemma {:induction false} LoadRowsKeeps(cache: map<string, URLData>, rows: seq<URLData>, code: string)
    requires code in cache && code !in Codes(rows)
    ensures code in LoadRows(cache, rows) && LoadRows(cache, rows)[code] == cache[code]
    decreases |rows|
  {
    if rows != [] {
      var n := |rows| - 1;
      assert rows[n] in rows;
      assert code !in Codes(rows[..n]) by {
        forall r | r in rows[..n] ensures r.shortCode != code {
          assert r in rows;
        }
      }
      LoadRowsKeeps(cache, rows[..n], code);
    }
  }

  /** Loading maps the code of a row to that row when no later row carries
      the same code: the last row with a code wins. */
  lemma {:induction false} LoadRowsLastWins(cache: map<string, URLData>, rows: seq<URLData>, j: nat)
    requires j < |rows|
    requires forall k :: j < k < |rows| ==> rows[k].shortCode != rows[j].shortCode
    ensures rows[j].shortCode in LoadRows(cache, rows)
    ensures LoadRows(cache, rows)[rows[j].shortCode] == rows[j]
    decreases |rows|
  {
    var n := |rows| - 1;
    if j < n {
      var front := rows[..n];
      assert front[j] == rows[j];
      LoadRowsLastWins(cache, front, j);
    }
  }

  /** A cache loaded from nothing holds only rows of the database, each under
      its own code: no cache entry lacks a database row. */
  lemma {:induction false} LoadedEntriesAreRows(rows: seq<URLData>, code: string)
    requires code in LoadRows(map[], rows)
    ensures LoadRows(map[], rows)[code] in rows
    ensures LoadRows(map[], rows)[code].shortCode == code
    decreases |rows|
  {
    var n := |rows| - 1;
    if code != rows[n].shortCode {
      var front := rows[..n];
      LoadedEntriesAreRows(front, code);
      assert LoadRows(map[], front)[code] in rows by {
        var i :| 0 <= i < |front| && front[i] == LoadRows(map[], front)[code];
        assert rows[i] == front[i];
      }
    }
  }

  /** With distinct codes, every row is found in the loaded cache under its
      own code. */
  lemma {:induction false} LoadedCacheHoldsEveryRow(rows: seq<URLData>, i: nat)
    requires DistinctCodes(rows)
    requires i < |rows|
    ensures rows[i].shortCode in LoadRows(map[], rows)
    ensures LoadRows(map[], rows)[rows[i].shortCode] == rows[i]
  {
    LoadRowsLastWins(map[], rows, i);
  }

  /** Rows holding the same records, in any order, carry the same codes. */
  lemma CodesOfPermutation(a: seq<URLData>, b: seq<URLData>)
    requires multiset(a) == multiset(b)
    ensures Codes(a) == Codes(b)
  {
    forall c | c in Codes(a)
      ensures c in Codes(b)
    {
      var r :| r in a && r.shortCode == c;
      assert r in multiset(a);
    }
    forall c | c in Codes(b)
      ensures c in Codes(a)
    {
      var r :| r in b && r.shortCode == c;
      assert r in multiset(b);
    }
  }

  /** A record at two positions of a sequence occurs in it at least twice. */
  lemma TwoPositionsCountTwice(s: seq<URLData>, i: nat, j: nat)
    requires i < j < |s| && s[i] == s[j]
    ensures multiset(s)[s[i]] >= 2
  {
    assert s == s[..j] + [s[j]] + s[j + 1..];
    assert s[..j][i] == s[i];
  }

  /** A record occurring at least twice sits at two positions. */
  lemma {:induction false} CountTwiceTwoPositions(s: seq<URLData>, x: URLData)
    requires multiset(s)[x] >= 2
    ensures exists i, j :: 0 <= i < j < |s| && s[i] == x && s[j] == x
  {
    assert s == [s[0]] + s[1..];
    if s[0] == x {
      assert x in multiset(s[1..]);
      var k :| 0 <= k < |s[1..]| && s[1..][k] == x;
      assert s[k + 1] == x;
    } else {
      CountTwiceTwoPositions(s[1..], x);
      var i, j :| 0 <= i < j < |s[1..]| && s[1..][i] == x && s[1..][j] == x;
      assert s[i + 1] == x && s[j + 1] == x;
    }
  }

  /** Distinct codes survive any reordering of the rows. */
  lemma DistinctCodesOfPermutation(a: seq<URLData>, b: seq<URLData>)
    requires multiset(a) == multiset(b) && DistinctCodes(b)
    ensures DistinctCodes(a)
  {
    forall i, j | 0 <= i < j < |a|
      ensures a[i].shortCode != a[j].shortCode
    {
      if a[i] == a[j] {
        TwoPositionsCountTwice(a, i, j);
        CountTwiceTwoPositions(b, a[i]);
      } else {
        assert a[i] in multiset(b) && a[j] in multiset(b);
        var k :| 0 <= k < |b| && b[k] == a[i];
        var l :| 0 <= l < |b| && b[l] == a[j];
        assert k != l;
      }
    }
  }

  /** With distinct codes, loading the same rows in any order into an empty
      cache gives the same cache. */
  lemma LoadOrderIrrelevant(a: seq<URLData>, b: seq<URLData>)
    requires multiset(a) == multiset(b) && DistinctCodes(a) && DistinctCodes(b)
    ensures LoadRows(map[], a) == LoadRows(map[], b)
  {
    LoadRowsKeys(map[], a);
    LoadRowsKeys(map[], b);
    CodesOfPermutation(a, b);
    forall c | c in LoadRows(map[], a)
      ensures LoadRows(map[], a)[c] == LoadRows(map[], b)[c]
    {
      var x :| x in a && x.shortCode == c;
      var i :| 0 <= i < |a| && a[i] == x;
      LoadedCacheHoldsEveryRow(a, i);
      assert x in multiset(b);
      var j :| 0 <= j < |b| && b[j] == x;
      LoadedCacheHoldsEveryRow(b, j);
    }
  }

  /** Appending a row whose code is not yet loaded: loading then adds just
      that entry, and a table with distinct codes keeps them distinct. */
  lemma AppendNewCode(loaded: seq<URLData>, rows: seq<URLData>, x: URLData)
    requires multiset(loaded) == multiset(rows)
    requires x.shortCode !in LoadRows(map[], loaded)
    ensures LoadRows(map[], loaded + [x]) == LoadRows(map[], loaded)[x.shortCode := x]
    ensures DistinctCodes(rows) ==> DistinctCodes(rows + [x])
  {
    assert (loaded + [x])[..|loaded|] == loaded;
    LoadRowsKeys(map[], loaded);
    CodesOfPermutation(loaded, rows);
    assert forall i :: 0 <= i < |rows| ==> rows[i] in rows;
  }

  // ---------------------------------------------------------------------
  // The database
  // ---------------------------------------------------------------------

  /** The `urls` table, as the sequence of rows it holds in insertion order.
      Each driver call may fail; which one does is not determined here. */
  class Database {
    var rows: seq<URLData>

    constructor (rows: seq<URLData>)
      ensures this.rows == rows
    {
      this.rows := rows;
    }

    /** `INSERT INTO urls ...`: either appends the row or fails and leaves the
        table as it was. */
    method Insert(r: URLData) returns (ok: bool)
      modifies this
      ensures rows == if ok then old(rows) + [r] else old(rows)
    {
      ok :| true;
      if ok {
        rows := rows + [r];
      }
    }

    /** `SELECT ... FROM urls` without `ORDER BY`: either fails, or yields
        every row of the table exactly once, in an order SQL leaves open. */
    method Query() returns (result: Option<seq<URLData>>)
      ensures result.Some? ==> multiset(result.value) == multiset(rows)
    {
      var ok: bool :| true;
      result := if ok then Some(rows) else None;
    }

    /** `rows.Scan` on row `i` of a query's result: that row, or `None` when
        the scan fails. */
    method ScanRow(result: seq<URLData>, i: nat) returns (r: Option<URLData>)
      requires i < |result|
      ensures r.Some? ==> r.value == result[i]
    {
      var ok: bool :| true;
      r := if ok then Some(result[i]) else None;
    }

    /** Whether `rows.Err()` reports no error once iteration is over. */
    method RowsOk() returns (ok: bool)
    {
      ok :| true;
    }
  }

  // ---------------------------------------------------------------------
  // The store
  // ---------------------------------------------------------------------

  /** `URLDataModel`: the database handle, the cache and the code length.
      The ghost `loaded` records the order in which the table's rows were
      written into the cache: the query's order, then each created row. */
  class URLDataModel {
    const db: Database
    var cache: map<string, URLData>
    var shortURLLen: nat
    ghost var loaded: seq<URLData>

    /** The store's invariant once built: the cache is exactly what writing
        the table's rows into an empty map, in the order `loaded` records,
        gives; and codes are six characters long. */
    ghost predicate Valid()
      reads this, db
    {
      shortURLLen == ShortURLLen
      && multiset(loaded) == multiset(db.rows)
      && cache == LoadRows(map[], loaded)
    }

    /** The struct literal of `NewStore`: an empty cache over `db`. */
    constructor (db: Database)
      ensures this.db == db && cache == map[] && shortURLLen == ShortURLLen
      ensures loaded == []
    {
      this.db := db;
      cache := map[];
      shortURLLen := ShortURLLen;
      loaded := [];
    }

    /** Writes every row the query yields into the cache, in the query's
        order, which `loaded` records. On failure (the query, any scan, or the
        final `rows.Err()`) it stops, and the cache holds exactly the rows
        scanned before the failure. */
    method LoadCache() returns (err: Option<Error>)
      modifies this`cache, this`loaded
      ensures loaded == [] || multiset(loaded) == multiset(db.rows)
      ensures err.None? ==> multiset(loaded) == multiset(db.rows)
      ensures err.None? ==> cache == LoadRows(old(cache), loaded)
      ensures err.Some? ==> err.value == ErrDatabase
      ensures err.Some? ==> exists k :: 0 <= k <= |loaded| && cache == LoadRows(old(cache), loaded[..k])
    {
      var result := db.Query();
      if result.None? {
        loaded := [];
        assert cache == LoadRows(old(cache), loaded[..0]);
        return Some(ErrDatabase);
      }
      var q := result.value;
      loaded := q;
      for i := 0 to |q|
        invariant cache == LoadRows(old(cache), q[..i])
        invariant loaded == q
      {
        var row := db.ScanRow(q, i);
        if row.None? {
          return Some(ErrDatabase);
        }
        assert q[..i + 1][..i] == q[..i];
        cache := cache[row.value.shortCode := row.value];
      }
      assert q[..|q|] == q;
      var ok := db.RowsOk();
      if !ok {
        return Some(ErrDatabase);
      }
      err := None;
    }

    /** Creates a short code for `url`. Draws codes until one is not a key of
        the cache, builds the record (created at `now`, expiring `expiry`
        later when `expiry > 0`), writes it to the database and, only once
        that write succeeded, to the cache.

        The source draws without bound; here at most `fuel` redraws are made
        and running out is reported as `ErrRetriesExhausted`. */
    method CreateShortURL(url: string, title: string, expiry: Duration, now: Time, fuel: nat)
      returns (code: string, err: Option<Error>)
      requires Valid()
      modifies this`cache, this`loaded, db
      ensures Valid()
      ensures err.None? ==> code !in old(cache) && IsCode(code, ShortURLLen)
      ensures err.None? ==> cache == old(cache)[code := NewRecord(code, url, title, now, expiry)]
      ensures err.None? ==> db.rows == old(db.rows) + [NewRecord(code, url, title, now, expiry)]
      ensures err.None? ==> loaded == old(loaded) + [NewRecord(code, url, title, now, expiry)]
      ensures err.Some? ==> code == "" && cache == old(cache) && db.rows == old(db.rows)
      ensures err.Some? ==> loaded == old(loaded)
      ensures err.Some? ==> err.value == ErrDatabase || err.value == ErrRetriesExhausted
      ensures DistinctCodes(old(db.rows)) ==> DistinctCodes(db.rows)
    {
      code := GenerateRandomString(shortURLLen);
      var retries := fuel;
      while code in cache
        invariant IsCode(code, ShortURLLen)
        invariant cache == old(cache) && db.rows == old(db.rows) && loaded == old(loaded)
        decreases retries
      {
        if retries == 0 {
          return "", Some(ErrRetriesExhausted);
        }
        code := GenerateRandomString(shortURLLen);
        retries := retries - 1;
      }
      var urlData := NewRecord(code, url, title, now, expiry);
      var ok := db.Insert(urlData);
      if !ok {
        return "", Some(ErrDatabase);
      }
      AppendNewCode(loaded, old(db.rows), urlData);
      cache := cache[code := urlData];
      loaded := loaded + [urlData];
      err := None;
    }

    /** Resolves `shortCode` from the cache at time `now`. It only reads: an
        expired entry stays in the cache. */
    function GetRedirectData(shortCode: string, now: Time): (r: Result<URLData>)
      reads this
      ensures r == Err(ErrNotExists) <==> shortCode !in cache
      ensures r == Err(ErrURLExpired) <==> shortCode in cache && Expired(cache[shortCode], now)
      ensures r.Ok? <==> shortCode in cache && !Expired(cache[shortCode], now)
      ensures r.Ok? ==> r.value == cache[shortCode]
    {
      if shortCode !in cache then Err(ErrNotExists)
      else if Expired(cache[shortCode], now) then Err(ErrURLExpired)
      else Ok(cache[shortCode])
    }
  }

  /** Builds a store over `db` and seeds its cache. Fails exactly when loading
      the cache fails. */
  method NewStore(db: Database) returns (r: Result<URLDataModel>)
    ensures r.Ok? ==> fresh(r.value) && r.value.db == db && r.value.Valid()
    ensures r.Ok? && DistinctCodes(db.rows) ==> r.value.cache == LoadRows(map[], db.rows)
    ensures r.Err? ==> r.error == ErrDatabase
  {
    var m := new URLDataModel(db);
    var err := m.LoadCache();
    if err.Some? {
      return Err(err.value);
    }
    r := Ok(m);
    if DistinctCodes(db.rows) {
      CacheIsTableWhenCodesDistinct(m);
    }
  }

  /** `generateRandomString`: `length` characters, each drawn from `Charset`. */
  method GenerateRandomString(length: nat) returns (s: string)
    ensures IsCode(s, length)
  {
    var randomString := new char[length];
    for i := 0 to randomString.Length
      invariant forall j :: 0 <= j < i ==> IsAlphanumeric(randomString[j])
    {
      var k := Intn(|Charset|);
      CharsetAt(k);
      randomString[i] := Charset[k];
    }
    s := randomString[..];
  }

  /** A valid store's cache mirrors the table: its keys are exactly the codes
      in the table, and every entry is a row of the table stored under its
      own code. */
  lemma CacheMirrorsTable(m: URLDataModel)
    requires m.Valid()
    ensures m.cache.Keys == Codes(m.db.rows)
    ensures forall c :: c in m.cache ==> m.cache[c] in m.db.rows && m.cache[c].shortCode == c
  {
    LoadRowsKeys(map[], m.loaded);
    CodesOfPermutation(m.loaded, m.db.rows);
    forall c | c in m.cache
      ensures m.cache[c] in m.db.rows && m.cache[c].shortCode == c
    {
      LoadedEntriesAreRows(m.loaded, c);
      assert m.cache[c] in multiset(m.loaded);
    }
  }

  /** With distinct codes (the table's primary key), the order in which the
      rows were loaded does not matter: a valid store's cache is the table
      loaded in its own order. */
  lemma CacheIsTableWhenCodesDistinct(m: URLDataModel)
    requires m.Valid() && DistinctCodes(m.db.rows)
    ensures m.cache == LoadRows(map[], m.db.rows)
  {
    DistinctCodesOfPermutation(m.loaded, m.db.rows);
    LoadOrderIrrelevant(m.loaded, m.db.rows);
  }

  /** Keys of the cache only grow along a run of creations. */
  lemma {:induction false} KeysGrow(caches: seq<map<string, URLData>>, i: nat, j: nat)
    requires forall k :: 0 <= k < |caches| - 1 ==> caches[k].Keys <= caches[k + 1].Keys
    requires i <= j < |caches|
    ensures caches[i].Keys <= caches[j].Keys
    decreases j - i
  {
    if i < j {
      KeysGrow(caches, i + 1, j);
    }
  }

  /** Codes issued by successive successful creations are pairwise distinct.
      `caches[i]` is the cache when the i-th successful creation starts (a
      failed creation leaves the cache as it was) and `codes[i]` the code it
      returned; each creation returns a code absent from its cache and adds
      it, as `CreateShortURL` ensures. */
  lemma IssuedCodesAreDistinct(caches: seq<map<string, URLData>>, codes: seq<string>)
    requires |caches| == |codes| + 1
    requires forall i :: 0 <= i < |codes| ==> codes[i] !in caches[i]
    requires forall i :: 0 <= i < |codes| ==> caches[i].Keys + {codes[i]} <= caches[i + 1].Keys
    ensures forall i, j :: 0 <= i < j < |codes| ==> codes[i] != codes[j]
  {
    forall i, j | 0 <= i < j < |codes|
      ensures codes[i] != codes[j]
    {
      KeysGrow(caches, i + 1, j);
    }
  }

  /** Resolving a freshly created code at time `now`: it resolves to the
      record holding the given URL and title unless an expiry was set and
      `now` is past it, in which case the answer is "expired", never "does
      not exist". */
  lemma CreatedRecordResolves(m: URLDataModel, before: map<string, URLData>,
                              code: string, url: string, title: string,
                              createdOn: Time, expiry: Duration, now: Time)
    requires m.cache == before[code := NewRecord(code, url, title, createdOn, expiry)]
    ensures m.GetRedirectData(code, now).Ok? <==> expiry <= 0 || now <= createdOn + expiry
    ensures m.GetRedirectData(code, now).Err? ==> m.GetRedirectData(code, now).error == ErrURLExpired
    ensures m.GetRedirectData(code, now).Ok? ==>
      var r := m.GetRedirectData(code, now).value;
      r.shortCode == code && r.url == url && r.title == title && r.createdOn == createdOn
      && (expiry <= 0 ==> r.expiresOn == None)
  {
  }

  // ---------------------------------------------------------------------
  // Listing: the filter and order of `All`
  // ---------------------------------------------------------------------

  /** Newest first: `createdOn` never increases along the sequence. */
  predicate NewestFirst(s: seq<URLData>) {
    forall i, j :: 0 <= i < j < |s| ==> s[i].createdOn >= s[j].createdOn
  }

  /** Strictly oldest first, as rows are when each was created at a later
      time than the one before. */
  predicate OldestFirst(s: seq<URLData>) {
    forall i, j :: 0 <= i < j < |s| ==> s[i].createdOn < s[j].createdOn
  }

  /** The listing query's `WHERE` clause: the active rows, in table order. */
  function ActiveRows(rows: seq<URLData>, now: Time): (r: seq<URLData>)
    ensures forall x :: multiset(r)[x] == if IsActive(x, now) then multiset(rows)[x] else 0
  {
    if rows == [] then []
    else
      assert rows == [rows[0]] + rows[1..];
      (if IsActive(rows[0], now) then [rows[0]] else []) + ActiveRows(rows[1..], now)
  }

  /** Puts `x` into the sequence `s` just before the first row older than
      it; in a newest-first sequence that is where it belongs. */
  function InsertByAge(x: URLData, s: seq<URLData>): (r: seq<URLData>)
    ensures multiset(r) == multiset(s) + multiset{x}
  {
    if s == [] then [x]
    else if x.createdOn >= s[0].createdOn then [x] + s
    else
      assert s == [s[0]] + s[1..];
      [s[0]] + InsertByAge(x, s[1..])
  }

  /** Dropping the first row keeps a sequence newest first. */
  lemma NewestFirstTail(s: seq<URLData>)
    requires NewestFirst(s) && s != []
    ensures NewestFirst(s[1..])
  {
    var tail := s[1..];
    forall i, j | 0 <= i < j < |tail|
      ensures tail[i].createdOn >= tail[j].createdOn
    {
      assert tail[i] == s[i + 1] && tail[j] == s[j + 1];
    }
  }

  /** The first row of a newest-first sequence is at least as new as any
      of its rows. */
  lemma NewestFirstHead(s: seq<URLData>, y: URLData)
    requires NewestFirst(s) && y in s
    ensures y.createdOn <= s[0].createdOn
  {
    var k :| 0 <= k < |s| && s[k] == y;
  }

  /** A row at least as new as every row of a newest-first sequence can go
      in front of it. */
  lemma NewestFirstCons(x: URLData, t: seq<URLData>)
    requires NewestFirst(t)
    requires forall y :: y in t ==> y.createdOn <= x.createdOn
    ensures NewestFirst([x] + t)
  {
    var r := [x] + t;
    forall i, j | 0 <= i < j < |r|
      ensures r[i].createdOn >= r[j].createdOn
    {
      assert r[j] == t[j - 1];
      if i > 0 {
        assert r[i] == t[i - 1];
      }
    }
  }

  /** Every row of `InsertByAge(x, s)` is `x` or a row of `s`. */
  lemma InsertedRows(x: URLData, s: seq<URLData>, y: URLData)
    requires y in InsertByAge(x, s)
    ensures y == x || y in s
  {
    assert y in multiset(InsertByAge(x, s));
  }

  /** Inserting into a newest-first sequence keeps it newest first. */
  lemma {:induction false} InsertKeepsNewestFirst(x: URLData, s: seq<URLData>)
    requires NewestFirst(s)
    ensures NewestFirst(InsertByAge(x, s))
  {
    if s == [] {
    } else if x.createdOn >= s[0].createdOn {
      forall y | y in s
        ensures y.createdOn <= x.createdOn
      {
        NewestFirstHead(s, y);
      }
      NewestFirstCons(x, s);
    } else {
      var tail := s[1..];
      var rest := InsertByAge(x, tail);
      NewestFirstTail(s);
      InsertKeepsNewestFirst(x, tail);
      forall y | y in rest
        ensures y.createdOn <= s[0].createdOn
      {
        InsertedRows(x, tail, y);
        if y != x {
          NewestFirstHead(s, y);
        }
      }
      NewestFirstCons(s[0], rest);
    }
  }

  /** Orders `s` newest first, keeping every row. */
  function SortNewestFirst(s: seq<URLData>): (r: seq<URLData>)
    ensures NewestFirst(r)
    ensures multiset(r) == multiset(s)
  {
    if s == [] then []
    else
      assert s == [s[0]] + s[1..];
      var sorted := SortNewestFirst(s[1..]);
      InsertKeepsNewestFirst(s[0], sorted);
      InsertByAge(s[0], sorted)
  }

  /** `All`: the active rows at time `now`, newest first. Rows with equal
      creation times may come in any order (`ORDER BY` leaves ties open); the
      contract fixes everything else. */
  function All(rows: seq<URLData>, now: Time): (r: seq<URLData>)
    ensures NewestFirst(r)
    ensures multiset(r) == multiset(ActiveRows(rows, now))
    ensures forall x :: x in r <==> x in rows && IsActive(x, now)
  {
    var r := SortNewestFirst(ActiveRows(rows, now));
    assert forall x :: x in r <==> x in multiset(ActiveRows(rows, now));
    r
  }

  /** `s` backwards. */
  function Reversed(s: seq<URLData>): (r: seq<URLData>)
    ensures |r| == |s|
    ensures forall i :: 0 <= i < |s| ==> r[i] == s[|s| - 1 - i]
  {
    if s == [] then [] else Reversed(s[1..]) + [s[0]]
  }

  /** Every active row after the first is newer than the first row. */
  lemma ActiveTailIsNewer(rows: seq<URLData>, now: Time, y: URLData)
    requires OldestFirst(rows) && rows != []
    requires y in ActiveRows(rows[1..], now)
    ensures y.createdOn > rows[0].createdOn
  {
    assert y in multiset(ActiveRows(rows[1..], now));
    assert y in rows[1..];
  }

  /** A row older than every row of an oldest-first sequence can go in
      front of it. */
  lemma OldestFirstCons(x: URLData, t: seq<URLData>)
    requires OldestFirst(t)
    requires forall y :: y in t ==> y.createdOn > x.createdOn
    ensures OldestFirst([x] + t)
  {
    var r := [x] + t;
    forall i, j | 0 <= i < j < |r|
      ensures r[i].createdOn < r[j].createdOn
    {
      assert r[j] == t[j - 1];
      if i > 0 {
        assert r[i] == t[i - 1];
      }
    }
  }

  /** The active rows of an oldest-first table are oldest first too. */
  lemma {:induction false} ActiveRowsKeepOrder(rows: seq<URLData>, now: Time)
    requires OldestFirst(rows)
    ensures OldestFirst(ActiveRows(rows, now))
  {
    if rows != [] {
      var rest := ActiveRows(rows[1..], now);
      ActiveRowsKeepOrder(rows[1..], now);
      if IsActive(rows[0], now) {
        forall y | y in rest
          ensures y.createdOn > rows[0].createdOn
        {
          ActiveTailIsNewer(rows, now, y);
        }
        OldestFirstCons(rows[0], rest);
      }
    }
  }

  /** Inserting a row older than every row of `s` puts it last. */
  lemma {:induction false} InsertOldestGoesLast(x: URLData, s: seq<URLData>)
    requires forall y :: y in s ==> y.createdOn > x.createdOn
    ensures InsertByAge(x, s) == s + [x]
  {
    if s != [] {
      InsertOldestGoesLast(x, s[1..]);
    }
  }

  /** Dropping the first row keeps a sequence oldest first. */
  lemma OldestFirstTail(s: seq<URLData>)
    requires OldestFirst(s) && s != []
    ensures OldestFirst(s[1..])
  {
    var tail := s[1..];
    forall i, j | 0 <= i < j < |tail|
      ensures tail[i].createdOn < tail[j].createdOn
    {
      assert tail[i] == s[i + 1] && tail[j] == s[j + 1];
    }
  }

  /** In an oldest-first sequence, every later row is newer than the first. */
  lemma LaterRowsAreNewer(s: seq<URLData>, y: URLData)
    requires OldestFirst(s) && s != []
    requires y in Reversed(s[1..])
    ensures y.createdOn > s[0].createdOn
  {
    var t := Reversed(s[1..]);
    var i :| 0 <= i < |t| && t[i] == y;
    assert y == s[|s| - 1 - i];
  }

  /** Sorting an oldest-first sequence reverses it. */
  lemma {:induction false} SortOldestFirstReverses(s: seq<URLData>)
    requires OldestFirst(s)
    ensures SortNewestFirst(s) == Reversed(s)
  {
    if s != [] {
      OldestFirstTail(s);
      SortOldestFirstReverses(s[1..]);
      var t := Reversed(s[1..]);
      forall y | y in t
        ensures y.createdOn > s[0].createdOn
      {
        LaterRowsAreNewer(s, y);
      }
      InsertOldestGoesLast(s[0], t);
    }
  }

  /** Records created one after another at strictly increasing times are
      listed in the reverse order of creation, the expired ones left out. */
  lemma ListedInReverseCreationOrder(rows: seq<URLData>, now: Time)
    requires OldestFirst(rows)
    ensures All(rows, now) == Reversed(ActiveRows(rows, now))
  {
    ActiveRowsKeepOrder(rows, now);
    SortOldestFirstReverses(ActiveRows(rows, now));
  }

  /** Listing from the table and filtering the cache agree: when the table
      holds distinct codes, a record is listed exactly when it is an active
      value of a valid store's cache. */
  lemma ListingMatchesCache(m: URLDataModel, now: Time, x: URLData)
    requires m.Valid() && DistinctCodes(m.db.rows)
    ensures x in All(m.db.rows, now) <==> x in m.cache.Values && IsActive(x, now)
  {
    CacheIsTableWhenCodesDistinct(m);
    if x in m.db.rows {
      var i :| 0 <= i < |m.db.rows| && m.db.rows[i] == x;
      LoadedCacheHoldsEveryRow(m.db.rows, i);
    }
    if x in m.cache.Values {
      var c :| c in m.cache && m.cache[c] == x;
      LoadedEntriesAreRows(m.db.rows, c);
    }
  }
}
