/** The station table of `MainWindow` and the operations that work on all of its rows:
    marking duplicate addresses, rewriting HTTPS addresses, removing rows, and searching. */
module Table {
  import opened PyStr

  /** One table row: name, address, volume and info columns (0 to 3). */
  datatype Row = Row(name: string, url: string, volume: string, info: string)

  /** What a duplicate's info cell is set to. */
  const DoubleMark: string := "[DOUBLE]"

  // ---------------------------------------------------------------------------
  // find_duplicates (lines 2298-2321)

  /** The dictionary key of an address: stripped and lower-cased. */
  function UrlKey(url: string): string {
    Lower(Strip(url))
  }

  function Keys(rows: seq<Row>): (ks: seq<string>)
    ensures |ks| == |rows| && forall t :: 0 <= t < |rows| ==> ks[t] == UrlKey(rows[t].url)
  {
    seq(|rows|, t requires 0 <= t < |rows| => UrlKey(rows[t].url))
  }

  /** The rows with key `k`, in table order: the list the dictionary holds for `k`. */
  function Appearances(keys: seq<string>, k: string): seq<nat>
    decreases |keys|
  {
    if keys == [] then []
    else
      var front := Appearances(keys[..|keys| - 1], k);
      if keys[|keys| - 1] == k then front + [|keys| - 1] else front
  }

  /** The list of key `k` holds every row with key `k`, only those, in ascending order. */
  lemma {:induction false} AppearancesSpec(keys: seq<string>, k: string)
    ensures forall j :: 0 <= j < |Appearances(keys, k)| ==>
      Appearances(keys, k)[j] < |keys| && keys[Appearances(keys, k)[j]] == k
    ensures forall t :: 0 <= t < |keys| && keys[t] == k ==> t in Appearances(keys, k)
    ensures forall a, b :: 0 <= a < b < |Appearances(keys, k)| ==> Appearances(keys, k)[a] < Appearances(keys, k)[b]
    decreases |keys|
  {
    if keys != [] {
      AppearancesSpec(keys[..|keys| - 1], k);
    }
  }

  /** The non-empty keys in order of first appearance: the keys of the dictionary, in its order. */
  function FirstSeen(keys: seq<string>): (order: seq<string>)
    ensures forall k :: k in order <==> k != [] && k in keys
    ensures forall a, b :: 0 <= a < b < |order| ==> order[a] != order[b]
    decreases |keys|
  {
    if keys == [] then []
    else
      var front := FirstSeen(keys[..|keys| - 1]);
      var k := keys[|keys| - 1];
      assert keys == keys[..|keys| - 1] + [k];
      if k == [] || k in front then front else front + [k]
  }

  /** All rows of a list but the first. */
  function Later(rs: seq<nat>): seq<nat> {
    if rs == [] then [] else rs[1..]
  }

  /** The duplicates collected for the keys `order`: each key's rows but the first. */
  function DuplicateList(keys: seq<string>, order: seq<string>): seq<nat>
    decreases |order|
  {
    if order == [] then []
    else DuplicateList(keys, order[..|order| - 1]) + Later(Appearances(keys, order[|order| - 1]))
  }

  lemma DuplicateListNext(keys: seq<string>, order: seq<string>, j: nat)
    requires j < |order|
    ensures DuplicateList(keys, order[..j + 1]) == DuplicateList(keys, order[..j]) + Later(Appearances(keys, order[j]))
  {
    assert order[..j + 1][..j] == order[..j];
  }

  /** What `find_duplicates` leaves in `self.duplicates`. */
  function Duplicates(rows: seq<Row>): seq<nat> {
    DuplicateList(Keys(rows), FirstSeen(Keys(rows)))
  }

  /** Row `t` has a non-empty key that an earlier row already has. */
  predicate IsDuplicate(keys: seq<string>, t: nat) {
    t < |keys| && keys[t] != [] && exists s :: 0 <= s < t && keys[s] == keys[t]
  }

  /** A row is among the later rows of key `k` exactly when an earlier row has `k` too. */
  lemma LaterAppearances(keys: seq<string>, k: string, t: nat)
    ensures t in Later(Appearances(keys, k)) <==> t < |keys| && keys[t] == k && exists s :: 0 <= s < t && keys[s] == k
  {
    var rs := Appearances(keys, k);
    AppearancesSpec(keys, k);
    if t < |keys| && keys[t] == k && exists s :: 0 <= s < t && keys[s] == k {
      var s :| 0 <= s < t && keys[s] == k;
      assert s in rs;
      assert rs[0] <= s;
      assert t in rs[1..] by {
        var j :| 0 <= j < |rs| && rs[j] == t;
        assert j != 0;
        assert rs[1..][j - 1] == t;
      }
    }
    if t in Later(rs) {
      var j :| 0 <= j < |rs[1..]| && rs[1..][j] == t;
      assert rs[1..][j] == rs[j + 1];
      assert rs[0] < rs[j + 1] && keys[rs[0]] == k;
    }
  }

  /** `t` is a later row of key `k`. */
  predicate LaterRow(keys: seq<string>, k: string, t: nat) {
    t in Later(Appearances(keys, k))
  }

  /** The last key of `order` adds its later rows to those of the keys before it. */
  lemma DuplicateListLast(keys: seq<string>, order: seq<string>, t: nat)
    requires order != []
    ensures t in DuplicateList(keys, order)
      <==> t in DuplicateList(keys, order[..|order| - 1]) || LaterRow(keys, order[|order| - 1], t)
  {
    var n := |order| - 1;
    MemberConcat(DuplicateList(keys, order[..n]), Later(Appearances(keys, order[n])), t);
  }

  lemma {:induction false} DuplicateListMember(keys: seq<string>, order: seq<string>, t: nat)
    ensures t in DuplicateList(keys, order) <==> exists j :: 0 <= j < |order| && LaterRow(keys, order[j], t)
    decreases |order|
  {
    if order != [] {
      DuplicateListMember(keys, order[..|order| - 1], t);
      DuplicateListLast(keys, order, t);
      SomeLaterSnoc(keys, order, order[..|order| - 1], t);
    }
  }

  lemma SomeLaterSnoc(keys: seq<string>, order: seq<string>, front: seq<string>, t: nat)
    requires order != [] && front == order[..|order| - 1]
    ensures (exists j :: 0 <= j < |order| && LaterRow(keys, order[j], t))
      <==> (exists j :: 0 <= j < |front| && LaterRow(keys, front[j], t)) || LaterRow(keys, order[|order| - 1], t)
  {
    var p := k => LaterRow(keys, k, t);
    ExistsSnoc(order, front, p);
    assert forall j :: 0 <= j < |order| ==> p(order[j]) == LaterRow(keys, order[j], t);
    assert forall j :: 0 <= j < |front| ==> p(front[j]) == LaterRow(keys, front[j], t);
  }

  /** `find_duplicates` marks exactly the rows whose key an earlier row already has:
      the first row of each address is kept, rows with an empty address are never marked. */
  lemma DuplicatesExactly(rows: seq<Row>, t: nat)
    ensures t in Duplicates(rows) <==> IsDuplicate(Keys(rows), t)
  {
    var keys := Keys(rows);
    var order := FirstSeen(keys);
    DuplicateListMember(keys, order, t);
    assert Duplicates(rows) == DuplicateList(keys, order);
    if t in DuplicateList(keys, order) {
      var j :| 0 <= j < |order| && LaterRow(keys, order[j], t);
      LaterAppearances(keys, order[j], t);
      assert order[j] in order;
      assert IsDuplicate(keys, t);
    }
    if IsDuplicate(keys, t) {
      assert keys[t] in keys;
      var j :| 0 <= j < |order| && order[j] == keys[t];
      LaterAppearances(keys, order[j], t);
      assert LaterRow(keys, order[j], t);
      assert t in DuplicateList(keys, order);
    }
  }

  /** Every row `find_duplicates` collects belongs to one of the keys it went through. */
  lemma DuplicateListKeys(keys: seq<string>, order: seq<string>, t: nat)
    requires t in DuplicateList(keys, order)
    ensures t < |keys| && keys[t] in order
  {
    DuplicateListMember(keys, order, t);
    var j :| 0 <= j < |order| && LaterRow(keys, order[j], t);
    LaterAppearances(keys, order[j], t);
  }

  /** No element of `s` occurs twice. */
  predicate NoRepeats(s: seq<nat>) {
    forall a, b :: 0 <= a < b < |s| ==> s[a] != s[b]
  }

  /** No element of `x` occurs in `y`. */
  predicate Apart(x: seq<nat>, y: seq<nat>) {
    forall a, b :: 0 <= a < |x| && 0 <= b < |y| ==> x[a] != y[b]
  }

  /** No row is collected twice, so one removal per entry removes each duplicate once. */
  lemma {:induction false} DuplicateListDistinct(keys: seq<string>, order: seq<string>)
    requires forall a, b :: 0 <= a < b < |order| ==> order[a] != order[b]
    ensures NoRepeats(DuplicateList(keys, order))
    decreases |order|
  {
    if order != [] {
      var front := order[..|order| - 1];
      var k := order[|order| - 1];
      DuplicateListDistinct(keys, front);
      LaterDistinct(keys, k);
      assert k !in front by {
        forall j | 0 <= j < |front| ensures front[j] != k {
          assert front[j] == order[j];
        }
      }
      LaterApart(keys, front, k);
      DistinctConcat(DuplicateList(keys, front), Later(Appearances(keys, k)));
    }
  }

  /** The later rows of one key have no repetition. */
  lemma LaterDistinct(keys: seq<string>, k: string)
    ensures NoRepeats(Later(Appearances(keys, k)))
  {
    var rs := Appearances(keys, k);
    AppearancesSpec(keys, k);
    var tail := Later(rs);
    forall a, b | 0 <= a < b < |tail| ensures tail[a] != tail[b] {
      assert rs != [] && tail == rs[1..];
      assert tail[a] == rs[a + 1] && tail[b] == rs[b + 1];
    }
  }

  /** The rows collected for `front` and the later rows of a key outside it are apart. */
  lemma LaterApart(keys: seq<string>, front: seq<string>, k: string)
    requires k !in front
    ensures Apart(DuplicateList(keys, front), Later(Appearances(keys, k)))
  {
    var d0, tail := DuplicateList(keys, front), Later(Appearances(keys, k));
    forall a, b | 0 <= a < |d0| && 0 <= b < |tail|
      ensures d0[a] != tail[b]
    {
      DuplicateListKeys(keys, front, d0[a]);
      assert tail[b] in tail;
      LaterAppearances(keys, k, tail[b]);
    }
  }

  /** Two lists without repetition and with no common element concatenate to one without. */
  lemma DistinctConcat(x: seq<nat>, y: seq<nat>)
    requires NoRepeats(x) && NoRepeats(y) && Apart(x, y)
    ensures NoRepeats(x + y)
  {
    var d := x + y;
    forall a, b | 0 <= a < b < |d|
      ensures d[a] != d[b]
    {
      if b < |x| {
        assert d[a] == x[a] && d[b] == x[b];
      } else if a < |x| {
        assert d[a] == x[a] && d[b] == y[b - |x|];
      } else {
        assert d[a] == y[a - |x|] && d[b] == y[b - |x|];
      }
    }
  }

  lemma DuplicatesDistinct(rows: seq<Row>)
    ensures NoRepeats(Duplicates(rows))
  {
    DuplicateListDistinct(Keys(rows), FirstSeen(Keys(rows)));
    assert Duplicates(rows) == DuplicateList(Keys(rows), FirstSeen(Keys(rows)));
  }

  /** The table with the info cell of every row in `dups` set to the duplicate mark. */
  function Marked(rows: seq<Row>, dups: seq<nat>): (r: seq<Row>)
    ensures |r| == |rows|
  {
    seq(|rows|, t requires 0 <= t < |rows| => if t in dups then rows[t].(info := DoubleMark) else rows[t])
  }

  lemma MarkedNext(rows: seq<Row>, dups: seq<nat>, x: nat)
    requires x < |rows|
    ensures Marked(rows, dups + [x]) == Marked(rows, dups)[x := Marked(rows, dups)[x].(info := DoubleMark)]
  {
  }

  /** A key no row has has an empty list. */
  lemma {:induction false} AbsentAppearances(keys: seq<string>, k: string)
    requires k !in keys
    ensures Appearances(keys, k) == []
    decreases |keys|
  {
    if keys != [] {
      assert keys == keys[..|keys| - 1] + [keys[|keys| - 1]];
      AbsentAppearances(keys[..|keys| - 1], k);
    }
  }

  lemma AppearancesNext(keys: seq<string>, t: nat, k: string)
    requires t < |keys|
    ensures Appearances(keys[..t + 1], k) == Appearances(keys[..t], k) + (if keys[t] == k then [t] else [])
  {
    assert keys[..t + 1][..t] == keys[..t];
  }

  lemma FirstSeenNext(keys: seq<string>, t: nat)
    requires t < |keys|
    ensures FirstSeen(keys[..t + 1])
      == if keys[t] == [] || keys[t] in FirstSeen(keys[..t]) then FirstSeen(keys[..t]) else FirstSeen(keys[..t]) + [keys[t]]
  {
    assert keys[..t + 1][..t] == keys[..t];
  }

  /** `order` and `dict` are the dictionary built from the first `n` keys. */
  ghost predicate Grouped(keys: seq<string>, n: nat, order: seq<string>, dict: map<string, seq<nat>>) {
    n <= |keys| && order == FirstSeen(keys[..n])
    && (forall k :: k in dict <==> k in order)
    && (forall k :: k in dict ==> dict[k] == Appearances(keys[..n], k))
  }

  lemma GroupedNext(keys: seq<string>, t: nat, order: seq<string>, dict: map<string, seq<nat>>)
    requires t < |keys| && Grouped(keys, t, order, dict)
    ensures keys[t] == [] ==> Grouped(keys, t + 1, order, dict)
    ensures keys[t] != [] && keys[t] !in dict ==> Grouped(keys, t + 1, order + [keys[t]], dict[keys[t] := [t]])
    ensures keys[t] != [] && keys[t] in dict ==> Grouped(keys, t + 1, order, dict[keys[t] := dict[keys[t]] + [t]])
  {
    var url := keys[t];
    FirstSeenNext(keys, t);
    var dict' := if url == [] then dict else if url !in dict then dict[url := [t]] else dict[url := dict[url] + [t]];
    if url != [] && url !in dict {
      AbsentAppearances(keys[..t], url);
    }
    forall k | k in dict'
      ensures dict'[k] == Appearances(keys[..t + 1], k)
    {
      AppearancesNext(keys, t, k);
    }
  }

  /** The first loop of `find_duplicates`: the dictionary from keys to their rows, with its
      key order. */
  method GroupByKey(rows: seq<Row>) returns (order: seq<string>, dict: map<string, seq<nat>>)
    ensures order == FirstSeen(Keys(rows))
    ensures forall k :: k in dict <==> k in order
    ensures forall k :: k in dict ==> dict[k] == Appearances(Keys(rows), k)
  {
    ghost var keys := Keys(rows);
    order, dict := [], map[];
    for t := 0 to |rows|
      invariant Grouped(keys, t, order, dict)
    {
      var url := Lower(Strip(rows[t].url));
      assert url == keys[t];
      GroupedNext(keys, t, order, dict);
      if url != [] {
        if url !in dict {
          dict := dict[url := []];
          order := order + [url];
        }
        dict := dict[url := dict[url] + [t]];
      }
    }
    assert keys[..|rows|] == keys;
  }

  // ---------------------------------------------------------------------------
  // fix_https (lines 2399-2406)

  /** The address `fix_https` writes back for `url`, if any: a stripped address that starts
      with `https://` has that replaced by `http://` (the first and only occurrence at the start). */
  function Downgraded(url: string): (r: Option<string>)
    ensures r.Some? <==> StartsWith(Strip(url), "https://")
    ensures r.Some? ==> StartsWith(r.value, "http://") && "https://" + r.value[7..] == Strip(url)
  {
    var u := Strip(url);
    if StartsWith(u, "https://") then
      var r := "http://" + u[8..];
      assert r[7..] == u[8..];
      assert "https://" + u[8..] == u by {
        assert u == u[..8] + u[8..];
      }
      Some(r)
    else None
  }

  function HttpRows(rows: seq<Row>): (r: seq<Row>)
    ensures |r| == |rows|
  {
    seq(|rows|, t requires 0 <= t < |rows| => HttpRow(rows[t]))
  }

  /** One row as `fix_https` leaves it. */
  function HttpRow(r: Row): Row {
    if Downgraded(r.url).Some? then r.(url := Downgraded(r.url).value) else r
  }

  /** The number of rows `fix_https` changes. */
  function HttpsCount(rows: seq<Row>): (n: nat)
    ensures n <= |rows|
    decreases |rows|
  {
    if rows == [] then 0
    else HttpsCount(rows[..|rows| - 1]) + (if Downgraded(rows[|rows| - 1].url).Some? then 1 else 0)
  }

  lemma DowngradedTrimmed(url: string)
    requires Downgraded(url).Some?
    ensures Downgraded(Downgraded(url).value).None?
  {
    var u := Strip(url);
    var r := Downgraded(url).value;
    assert Trimmed(r) by {
      if |r| > 7 {
        assert r[|r| - 1] == u[|u| - 1];
      }
    }
    StripTrimmed(r);
    assert r[4] == ':';
  }

  /** Running `fix_https` a second time changes nothing. */
  lemma HttpRowsIdempotent(rows: seq<Row>)
    ensures HttpRows(HttpRows(rows)) == HttpRows(rows)
    ensures HttpsCount(HttpRows(rows)) == 0
  {
    var once := HttpRows(rows);
    forall t | 0 <= t < |rows|
      ensures Downgraded(once[t].url).None?
    {
      if Downgraded(rows[t].url).Some? {
        DowngradedTrimmed(rows[t].url);
      }
    }
    NoneCounted(once);
  }

  lemma {:induction false} NoneCounted(rows: seq<Row>)
    requires forall t :: 0 <= t < |rows| ==> Downgraded(rows[t].url).None?
    ensures HttpsCount(rows) == 0
    decreases |rows|
  {
    if rows != [] {
      NoneCounted(rows[..|rows| - 1]);
    }
  }

  // ---------------------------------------------------------------------------
  // Removal in descending order (lines 2356-2357, 2761-2762)

  /** The rows from `j` on whose index is not in `del`. */
  function KeptFrom(rows: seq<Row>, del: set<nat>, j: nat): (r: seq<Row>)
    requires j <= |rows|
    ensures |r| <= |rows| - j
    decreases |rows| - j
  {
    if j == |rows| then []
    else (if j in del then [] else [rows[j]]) + KeptFrom(rows, del, j + 1)
  }

  /** The table once the rows at the indices `del` are removed. */
  function Without(rows: seq<Row>, del: set<nat>): seq<Row> {
    KeptFrom(rows, del, 0)
  }

  /** The indices from `j` on that are removed. */
  function Removed(rows: seq<Row>, del: set<nat>, j: nat): set<nat>
    requires j <= |rows|
  {
    set t | j <= t < |rows| && t in del
  }

  lemma {:induction false} KeptFromLength(rows: seq<Row>, del: set<nat>, j: nat)
    requires j <= |rows|
    ensures |KeptFrom(rows, del, j)| + |Removed(rows, del, j)| == |rows| - j
    decreases |rows| - j
  {
    if j < |rows| {
      KeptFromLength(rows, del, j + 1);
      if j in del {
        assert Removed(rows, del, j) == Removed(rows, del, j + 1) + {j};
      } else {
        assert Removed(rows, del, j) == Removed(rows, del, j + 1);
      }
    } else {
      assert Removed(rows, del, j) == {};
    }
  }

  lemma {:induction false} KeptFromRows(rows: seq<Row>, del: set<nat>, j: nat, x: Row)
    requires j <= |rows|
    ensures x in KeptFrom(rows, del, j) <==> exists t :: j <= t < |rows| && t !in del && rows[t] == x
    decreases |rows| - j
  {
    if j < |rows| {
      KeptFromRows(rows, del, j + 1, x);
      var head := if j in del then [] else [rows[j]];
      var tail := KeptFrom(rows, del, j + 1);
      assert KeptFrom(rows, del, j) == head + tail;
      MemberConcat(head, tail, x);
      if x in head {
        assert j !in del && rows[j] == x;
      }
      if exists t :: j <= t < |rows| && t !in del && rows[t] == x {
        var t :| j <= t < |rows| && t !in del && rows[t] == x;
        if t == j {
          assert x in head;
        }
      }
    }
  }

  /** Removal drops exactly one row per index in `del` within the table. */
  lemma WithoutLength(rows: seq<Row>, del: set<nat>)
    ensures |Without(rows, del)| == |rows| - |set t | 0 <= t < |rows| && t in del|
  {
    KeptFromLength(rows, del, 0);
    assert Removed(rows, del, 0) == set t | 0 <= t < |rows| && t in del;
  }

  /** What is left are the rows whose index is not in `del`. */
  lemma WithoutRows(rows: seq<Row>, del: set<nat>, x: Row)
    ensures x in Without(rows, del) <==> exists t :: 0 <= t < |rows| && t !in del && rows[t] == x
  {
    KeptFromRows(rows, del, 0, x);
  }

  // ---------------------------------------------------------------------------
  // remove_inactive: the rows whose info carries a selected flag (lines 2739-2742)

  /** The flags the deletion dialog offers. */
  const InactiveFlags: seq<string> := ["[404]", "[Error]", "[ConnError]", "[Timeout]"]

  predicate Flagged(info: string, flags: seq<string>) {
    exists f :: f in flags && Contains(info, f)
  }

  /** The rows, in order, whose info cell contains one of `flags`. */
  function DeadRows(rows: seq<Row>, flags: seq<string>): (r: seq<nat>)
    ensures forall t: nat :: t in r <==> t < |rows| && Flagged(rows[t].info, flags)
    ensures forall j :: 0 <= j < |r| ==> r[j] < |rows|
    ensures forall a, b :: 0 <= a < b < |r| ==> r[a] < r[b]
    decreases |rows|
  {
    if rows == [] then []
    else
      var front := DeadRows(rows[..|rows| - 1], flags);
      assert forall t :: 0 <= t < |rows| - 1 ==> rows[..|rows| - 1][t] == rows[t];
      if Flagged(rows[|rows| - 1].info, flags) then front + [|rows| - 1] else front
  }

  /**
   * The flag test is a plain substring test: a live cell whose station name happens
   * to be "Error" is picked as dead along with the really dead ones.
   */
  lemma LiveCellFlagged(name: string, url: string, volume: string)
    ensures DeadRows([Row(name, url, volume, "[OK][STREAM][Error][MP3][128][Pop]")], InactiveFlags) == [0]
  {
    var info := "[OK][STREAM][Error][MP3][128][Pop]";
    var front, back := "[OK][STREAM]", "[MP3][128][Pop]";
    assert info == front + "[Error]" + back;
    assert info[|front|..|front| + 7] == "[Error]";
    ContainsAt(info, "[Error]", |front|);
    assert Flagged(info, InactiveFlags);
  }

  // ---------------------------------------------------------------------------
  // perform_search, prev_search_result and next_search_result (lines 2137-2192)

  /** The name, address or info of the row contains the lower-cased query, ignoring case. */
  predicate RowMatches(r: Row, query: string) {
    Contains(Lower(r.name), query) || Contains(Lower(r.url), query) || Contains(Lower(r.info), query)
  }

  /** The rows, in order, that match `query`; none for an empty query. */
  function Matches(rows: seq<Row>, query: string): (r: seq<nat>)
    ensures forall t: nat :: t in r <==> query != [] && t < |rows| && RowMatches(rows[t], query)
    ensures forall j :: 0 <= j < |r| ==> r[j] < |rows|
    ensures forall a, b :: 0 <= a < b < |r| ==> r[a] < r[b]
    decreases |rows|
  {
    if query == [] || rows == [] then []
    else
      var front := Matches(rows[..|rows| - 1], query);
      assert forall t :: 0 <= t < |rows| - 1 ==> rows[..|rows| - 1][t] == rows[t];
      if RowMatches(rows[|rows| - 1], query) then front + [|rows| - 1] else front
  }

  /** The loop of `perform_search`: the indices of the rows matching a non-empty query. */
  method FindMatches(rows: seq<Row>, query: string) returns (found: seq<nat>)
    requires query != []
    ensures found == Matches(rows, query)
  {
    found := [];
    for t := 0 to |rows|
      invariant found == Matches(rows[..t], query)
    {
      assert rows[..t + 1][..t] == rows[..t];
      var r := rows[t];
      if Contains(Lower(r.name), query) || Contains(Lower(r.url), query) || Contains(Lower(r.info), query) {
        found := found + [t];
      }
    }
    assert rows[..|rows|] == rows;
  }

  /** The position after `i`, wrapping from the last result to the first. */
  function NextIndex(i: int, n: nat): int {
    if i + 1 >= n then 0 else i + 1
  }

  /** The position before `i`, wrapping from the first result to the last. */
  function PrevIndex(i: int, n: nat): int {
    if i - 1 < 0 then n - 1 else i - 1
  }

  /** Within the results, stepping forward is counting modulo their number, and stepping
      back undoes it. */
  lemma StepsWrap(i: int, n: nat)
    requires 0 <= i < n
    ensures NextIndex(i, n) == (i + 1) % n && 0 <= NextIndex(i, n) < n
    ensures PrevIndex(i, n) == (i - 1) % n && 0 <= PrevIndex(i, n) < n
    ensures PrevIndex(NextIndex(i, n), n) == i && NextIndex(PrevIndex(i, n), n) == i
  {
  }

  /** `k` presses of "next". */
  function Advance(i: int, n: nat, k: nat): int {
    if k == 0 then i else NextIndex(Advance(i, n, k - 1), n)
  }

  lemma {:induction false} AdvanceCompose(i: int, n: nat, a: nat, b: nat)
    ensures Advance(i, n, a + b) == Advance(Advance(i, n, a), n, b)
    decreases b
  {
    if b > 0 {
      AdvanceCompose(i, n, a, b - 1);
    }
  }

  /** Before the last result, "next" just counts up. */
  lemma {:induction false} AdvanceCounts(i: int, n: nat, k: nat)
    requires 0 <= i && i + k < n
    ensures Advance(i, n, k) == i + k
  {
    if k > 0 {
      AdvanceCounts(i, n, k - 1);
    }
  }

  /** After as many presses of "next" as there are results, the same result is selected again. */
  lemma AdvanceWraps(i: int, n: nat)
    requires 0 <= i < n
    ensures Advance(i, n, n) == i
  {
    AdvanceCompose(i, n, n - 1 - i, i + 1);
    AdvanceCounts(i, n, n - 1 - i);
    AdvanceCompose(n - 1, n, 1, i);
    AdvanceCounts(0, n, i);
    assert Advance(n - 1, n, 1) == 0;
  }

  /** After `find_duplicates` the search for the mark finds every duplicate it marked. */
  lemma MarkedFound(rows: seq<Row>, t: nat)
    requires t in Duplicates(rows)
    ensures t in Matches(Marked(rows, Duplicates(rows)), Lower(DoubleMark))
  {
    DuplicatesExactly(rows, t);
    var marked := Marked(rows, Duplicates(rows));
    assert marked[t].info == DoubleMark;
    assert StartsWith(Lower(marked[t].info), Lower(DoubleMark));
  }

  /** A list without repetitions has as many distinct elements as entries. */
  lemma {:induction false} DistinctCard(s: seq<nat>)
    requires forall a, b :: 0 <= a < b < |s| ==> s[a] != s[b]
    ensures |set t: nat | t in s| == |s|
    decreases |s|
  {
    if s != [] {
      var front := s[..|s| - 1];
      var last := s[|s| - 1];
      DistinctCard(front);
      var before := set t: nat | t in front;
      assert s == front + [last];
      assert last !in before;
      assert (set t: nat | t in s) == before + {last};
    } else {
      assert (set t: nat | t in s) == {};
    }
  }

  /** Removing the rows at a list of distinct indices within the table takes off one row
      per entry. */
  lemma RemovedCount(rows: seq<Row>, s: seq<nat>)
    requires forall j :: 0 <= j < |s| ==> s[j] < |rows|
    requires forall a, b :: 0 <= a < b < |s| ==> s[a] != s[b]
    ensures |Without(rows, set t: nat | t in s)| == |rows| - |s|
  {
    var del := set t: nat | t in s;
    WithoutLength(rows, del);
    forall t | t in del
      ensures t < |rows|
    {
      var j :| 0 <= j < |s| && s[j] == t;
    }
    assert (set t | 0 <= t < |rows| && t in del) == del;
    DistinctCard(s);
  }

  /** `remove_duplicates` takes exactly as many rows off the table as it reports. */
  lemma DuplicatesRemoved(rows: seq<Row>)
    ensures |Without(rows, set t: nat | t in Duplicates(rows))| == |rows| - |Duplicates(rows)|
  {
    var d := Duplicates(rows);
    forall j | 0 <= j < |d|
      ensures d[j] < |rows|
    {
      DuplicateListKeys(Keys(rows), FirstSeen(Keys(rows)), d[j]);
    }
    DuplicatesDistinct(rows);
    RemovedCount(rows, d);
  }

  /** `remove_inactive` takes off as many rows as it reports, and no row left carries one
      of the chosen flags. */
  lemma DeadRemoved(rows: seq<Row>, flags: seq<string>, x: Row)
    ensures |Without(rows, set t: nat | t in DeadRows(rows, flags))| == |rows| - |DeadRows(rows, flags)|
    ensures x in Without(rows, set t: nat | t in DeadRows(rows, flags)) ==> !Flagged(x.info, flags) && x in rows
  {
    var dead := DeadRows(rows, flags);
    var del := set t: nat | t in dead;
    RemovedCount(rows, dead);
    WithoutRows(rows, del, x);
    if x in Without(rows, del) {
      var t :| 0 <= t < |rows| && t !in del && rows[t] == x;
      assert t !in dead;
    }
  }

  /** The inner loop of `find_duplicates` for one key: its rows after the first are
      collected and their info set to the mark. */
  method MarkLater(table: seq<Row>, dups: seq<nat>, rs: seq<nat>, ghost base: seq<Row>)
    returns (table': seq<Row>, dups': seq<nat>)
    requires forall j :: 0 <= j < |rs| ==> rs[j] < |table|
    requires |base| == |table| && table == Marked(base, dups)
    ensures dups' == dups + Later(rs)
    ensures |table'| == |base| && table' == Marked(base, dups')
  {
    table', dups' := table, dups;
    if rs == [] {
      return;
    }
    for i := 1 to |rs|
      invariant dups' == dups + rs[1..i]
      invariant |table'| == |base| && table' == Marked(base, dups')
    {
      var row := rs[i];
      MarkedNext(base, dups', row);
      assert rs[1..i + 1] == rs[1..i] + [row];
      dups' := dups' + [row];
      table' := table'[row := table'[row].(info := DoubleMark)];
    }
  }

  /** The second loop of `find_duplicates`: over the keys in the order first seen, the
      rows of each key after its first are marked; returns the table, the duplicates and
      their number. */
  method MarkGroups(rows: seq<Row>, order: seq<string>, dict: map<string, seq<nat>>)
    returns (table: seq<Row>, dups: seq<nat>, count: nat)
    requires forall k :: k in dict <==> k in order
    requires forall k :: k in dict ==> dict[k] == Appearances(Keys(rows), k)
    ensures dups == DuplicateList(Keys(rows), order) && count == |dups|
    ensures table == Marked(rows, dups)
  {
    ghost var keys := Keys(rows);
    table, dups, count := rows, [], 0;
    assert table == Marked(rows, []);
    for j := 0 to |order|
      invariant dups == DuplicateList(keys, order[..j]) && count == |dups|
      invariant |table| == |rows| && table == Marked(rows, dups)
    {
      var rs := dict[order[j]];
      DuplicateListNext(keys, order, j);
      AppearancesSpec(keys, order[j]);
      if |rs| > 1 {
        table, dups := MarkLater(table, dups, rs, rows);
        count := count + |rs| - 1;
      } else {
        assert Later(rs) == [];
      }
    }
    assert order[..|order|] == order;
  }

  /** The loop of `fix_https` over the table. */
  method DowngradeAll(rows: seq<Row>) returns (table: seq<Row>, changed: nat)
    ensures table == HttpRows(rows) && changed == HttpsCount(rows)
  {
    table, changed := rows, 0;
    for t := 0 to |rows|
      invariant |table| == |rows|
      invariant forall k :: 0 <= k < t ==> table[k] == HttpRow(rows[k])
      invariant forall k :: t <= k < |rows| ==> table[k] == rows[k]
      invariant changed == HttpsCount(rows[..t])
    {
      assert rows[..t + 1][..t] == rows[..t];
      var row := table[t];
      var url := Strip(row.url);
      if StartsWith(url, "https://") {
        // `url.replace("https://", "http://", 1)` on an address that starts with it
        var newUrl := "http://" + url[8..];
        table := table[t := row.(url := newUrl)];
        changed := changed + 1;
      }
      assert table[t] == HttpRow(rows[t]);
    }
    assert rows[..|rows|] == rows;
  }

  // ---------------------------------------------------------------------------
  // The table and its state in `MainWindow`

  class StationTable {
    var rows: seq<Row>
    /** `self.duplicates` and `self.has_duplicates`. */
    var duplicates: seq<nat>
    var hasDuplicates: bool
    /** `self.has_checked_stations`. */
    var checkedStations: bool
    /** `self.search_results` and `self.current_search_index`. */
    var searchResults: seq<nat>
    var searchIndex: int

    /** The search position is a result's index, or -1 exactly when there are none. */
    predicate Valid()
      reads this
    {
      -1 <= searchIndex < |searchResults| && (searchIndex == -1 <==> searchResults == [])
    }

    constructor ()
      ensures Valid()
      ensures rows == [] && duplicates == [] && !hasDuplicates && !checkedStations
      ensures searchResults == [] && searchIndex == -1
    {
      rows, duplicates, hasDuplicates, checkedStations := [], [], false, false;
      searchResults, searchIndex := [], -1;
    }

    /** `perform_search`: the rows matching the lower-cased text, the first one selected. */
    method PerformSearch(text: string) returns (selected: Option<nat>)
      modifies this
      ensures Valid()
      ensures searchResults == Matches(rows, Lower(text))
      ensures searchIndex == if searchResults == [] then -1 else 0
      ensures selected == if searchResults == [] then None else Some(searchResults[0])
      ensures rows == old(rows) && duplicates == old(duplicates) && hasDuplicates == old(hasDuplicates)
      ensures checkedStations == old(checkedStations)
    {
      var query := Lower(text);
      searchResults := [];
      searchIndex := -1;
      selected := None;
      if query == [] {
        return;
      }
      searchResults := FindMatches(rows, query);
      if searchResults != [] {
        searchIndex := 0;
        selected := Some(searchResults[0]);
      }
    }

    /** `next_search_result`: one result on, from the last back to the first. */
    method NextSearchResult() returns (selected: Option<nat>)
      requires Valid()
      modifies this
      ensures Valid()
      ensures searchIndex == if searchResults == [] then old(searchIndex) else NextIndex(old(searchIndex), |searchResults|)
      ensures selected == if searchResults == [] then None else Some(searchResults[searchIndex])
      ensures rows == old(rows) && searchResults == old(searchResults) && duplicates == old(duplicates)
      ensures hasDuplicates == old(hasDuplicates) && checkedStations == old(checkedStations)
    {
      if searchResults == [] {
        return None;
      }
      searchIndex := searchIndex + 1;
      if searchIndex >= |searchResults| {
        searchIndex := 0;
      }
      selected := Some(searchResults[searchIndex]);
    }

    /** `prev_search_result`: one result back, from the first round to the last. */
    method PrevSearchResult() returns (selected: Option<nat>)
      requires Valid()
      modifies this
      ensures Valid()
      ensures searchIndex == if searchResults == [] then old(searchIndex) else PrevIndex(old(searchIndex), |searchResults|)
      ensures selected == if searchResults == [] then None else Some(searchResults[searchIndex])
      ensures rows == old(rows) && searchResults == old(searchResults) && duplicates == old(duplicates)
      ensures hasDuplicates == old(hasDuplicates) && checkedStations == old(checkedStations)
    {
      if searchResults == [] {
        return None;
      }
      searchIndex := searchIndex - 1;
      if searchIndex < 0 {
        searchIndex := |searchResults| - 1;
      }
      selected := Some(searchResults[searchIndex]);
    }

    /** `find_duplicates`: marks every row whose address an earlier row already has, then
        searches for the mark. Nothing happens on an empty table. */
    method FindDuplicates() returns (count: nat)
      requires Valid()
      modifies this
      ensures Valid() && checkedStations == old(checkedStations)
      ensures old(rows) == [] ==>
        (count == 0 && rows == old(rows) && duplicates == old(duplicates) && hasDuplicates == old(hasDuplicates)
         && searchResults == old(searchResults) && searchIndex == old(searchIndex))
      ensures old(rows) != [] ==>
        (duplicates == Duplicates(old(rows)) && rows == Marked(old(rows), duplicates)
         && count == |duplicates| && hasDuplicates == (count > 0))
      ensures old(rows) != [] && count > 0 ==> searchResults == Matches(rows, Lower(DoubleMark)) && searchIndex == 0
      ensures old(rows) != [] && count == 0 ==> searchResults == old(searchResults) && searchIndex == old(searchIndex)
    {
      if rows == [] {
        return 0;
      }
      ghost var base := rows;
      count := MarkDuplicates();
      if count > 0 {
        MarkedFound(base, duplicates[0]);
        var _ := PerformSearch(DoubleMark);
      }
    }

    /** The two loops of `find_duplicates` on the table. */
    method MarkDuplicates() returns (count: nat)
      modifies this
      ensures duplicates == Duplicates(old(rows)) && rows == Marked(old(rows), duplicates)
      ensures count == |duplicates| && hasDuplicates == (count > 0)
      ensures checkedStations == old(checkedStations)
      ensures searchResults == old(searchResults) && searchIndex == old(searchIndex)
    {
      var order, dict := GroupByKey(rows);
      var table, dups;
      table, dups, count := MarkGroups(rows, order, dict);
      rows, duplicates, hasDuplicates := table, dups, count > 0;
    }

    /** `removeRow` for each index of `del`, from the highest down, so the indices still to
        come are not moved. */
    method RemoveRows(del: set<nat>)
      modifies this
      ensures rows == Without(old(rows), del)
      ensures duplicates == old(duplicates) && hasDuplicates == old(hasDuplicates)
      ensures checkedStations == old(checkedStations)
      ensures searchResults == old(searchResults) && searchIndex == old(searchIndex)
    {
      ghost var base := rows;
      var j := |rows|;
      assert base[..j] + KeptFrom(base, del, j) == base;
      while j > 0
        invariant 0 <= j <= |base|
        invariant rows == base[..j] + KeptFrom(base, del, j)
        invariant duplicates == old(duplicates) && hasDuplicates == old(hasDuplicates)
        invariant checkedStations == old(checkedStations)
        invariant searchResults == old(searchResults) && searchIndex == old(searchIndex)
      {
        j := j - 1;
        assert base[..j + 1] == base[..j] + [base[j]];
        if j in del {
          assert rows[..j] == base[..j] && rows[j + 1..] == KeptFrom(base, del, j + 1);
          rows := rows[..j] + rows[j + 1..];
        }
      }
    }

    /** `remove_duplicates`: once confirmed, the collected duplicates are removed and the
        search box is cleared, which empties the results. */
    method RemoveDuplicates(confirmed: bool) returns (removed: nat)
      requires Valid()
      modifies this
      ensures Valid() && checkedStations == old(checkedStations)
      ensures !old(hasDuplicates) || old(duplicates) == [] || !confirmed ==>
        removed == 0 && rows == old(rows) && duplicates == old(duplicates) && hasDuplicates == old(hasDuplicates)
        && searchResults == old(searchResults) && searchIndex == old(searchIndex)
      ensures old(hasDuplicates) && old(duplicates) != [] && confirmed ==>
        rows == Without(old(rows), set t: nat | t in old(duplicates)) && removed == |old(duplicates)|
        && duplicates == [] && !hasDuplicates && searchResults == [] && searchIndex == -1
    {
      if !hasDuplicates || duplicates == [] || !confirmed {
        return 0;
      }
      RemoveRows(set t: nat | t in duplicates);
      removed := |duplicates|;
      duplicates := [];
      hasDuplicates := false;
      var _ := PerformSearch("");
    }

    /** `fix_https`: once confirmed, every address whose stripped form starts with `https://`
        is rewritten; returns how many changed. */
    method FixHttps(confirmed: bool) returns (changed: nat)
      modifies this
      ensures rows == old(rows) || rows == HttpRows(old(rows))
      ensures old(rows) == [] || !confirmed ==> rows == old(rows) && changed == 0
      ensures old(rows) != [] && confirmed ==> rows == HttpRows(old(rows)) && changed == HttpsCount(old(rows))
      ensures duplicates == old(duplicates) && hasDuplicates == old(hasDuplicates)
      ensures checkedStations == old(checkedStations)
      ensures searchResults == old(searchResults) && searchIndex == old(searchIndex)
    {
      changed := 0;
      if rows == [] || !confirmed {
        return;
      }
      rows, changed := DowngradeAll(rows);
    }

    /** The rows `remove_inactive` offers to delete. */
    method SelectDead(flags: seq<string>) returns (dead: seq<nat>)
      ensures dead == DeadRows(rows, flags)
    {
      dead := [];
      for t := 0 to |rows|
        invariant dead == DeadRows(rows[..t], flags)
      {
        assert rows[..t + 1][..t] == rows[..t];
        if exists f :: f in flags && Contains(rows[t].info, f) {
          dead := dead + [t];
        }
      }
      assert rows[..|rows|] == rows;
    }

    /** `remove_inactive`: after a check, and once confirmed, the rows whose info carries one
        of the chosen flags are removed and the check is marked as not done. */
    method RemoveInactive(flags: seq<string>, confirmed: bool) returns (removed: nat)
      modifies this
      ensures var dead := DeadRows(old(rows), flags);
        if old(checkedStations) && flags != [] && dead != [] && confirmed then
          rows == Without(old(rows), set t: nat | t in dead) && removed == |dead| && !checkedStations
        else
          rows == old(rows) && removed == 0 && checkedStations == old(checkedStations)
      ensures duplicates == old(duplicates) && hasDuplicates == old(hasDuplicates)
      ensures searchResults == old(searchResults) && searchIndex == old(searchIndex)
    {
      removed := 0;
      if !checkedStations || flags == [] {
        return;
      }
      var dead := SelectDead(flags);
      if dead == [] || !confirmed {
        return;
      }
      RemoveRows(set t: nat | t in dead);
      removed := |dead|;
      checkedStations := false;
    }
  }
}
