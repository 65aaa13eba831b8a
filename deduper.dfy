/** The record cleaning, cluster bookkeeping and cluster merging of the deduplicator.
    The dedupe library's training and partitioning are not modelled: the partition it
    returns (a list of clusters, each a list of record ids with a list of scores) is an
    input. */
module Deduper {
  import opened Wrappers
  import opened Strings
  import opened PyValues

  /** The characters `_clean_value` strips from both ends: the two quotes, space, tab,
      line feed and carriage return. */
  const QuoteSpace: set<char> := {'"', '\'', ' ', '\t', '\n', '\r'}

  /** A spreadsheet row as `to_dict(orient="records")` gives it. */
  type Record = map<string, Value>

  predicate Uncapitalised(s: string)
  {
    forall i :: 0 <= i < |s| ==> !('A' <= s[i] <= 'Z')
  }

  /** Neither end of `s` is a quote or a space character. */
  predicate Unpadded(s: string)
  {
    s != [] ==> s[0] !in QuoteSpace && s[|s| - 1] !in QuoteSpace
  }

  /** A text lower-cased, then stripped of quotes and spaces at both ends. */
  function CleanText(s: string): (r: string)
    ensures Uncapitalised(r) && Unpadded(r)
    ensures |r| <= |s|
  {
    CleanTextUncapitalised(s);
    StripChars(Lower(s), QuoteSpace)
  }

  lemma CleanTextUncapitalised(s: string)
    ensures Uncapitalised(StripChars(Lower(s), QuoteSpace))
  {
    var t := Lower(s);
    StripCharsKeeps(t, QuoteSpace);
    var r := StripChars(t, QuoteSpace);
    forall i | 0 <= i < |r|
      ensures !('A' <= r[i] <= 'Z')
    {
      assert r[i] in t;
      var j :| 0 <= j < |t| && t[j] == r[i];
      LowerCharUncapital(s[j]);
    }
  }

  /** `_clean_value`: `str(value)` cleaned. */
  function CleanValue(v: Value): (r: string)
    ensures Uncapitalised(r) && Unpadded(r)
    ensures v.PyStr? ==> r == CleanText(v.s)
  {
    CleanText(Str(v))
  }

  /** A text is its own cleaning exactly when it has no capital letter and no quote or
      space at either end. */
  lemma CleanTextFixpoint(s: string)
    ensures CleanText(s) == s <==> Uncapitalised(s) && Unpadded(s)
  {
    if Uncapitalised(s) && Unpadded(s) {
      LowerUncapitalised(s);
      StripCharsUnpadded(s, QuoteSpace);
    }
  }

  /** Cleaning a cleaned value changes nothing. */
  lemma CleanValueIdempotent(v: Value)
    ensures CleanValue(PyStr(CleanValue(v))) == CleanValue(v)
  {
    CleanTextFixpoint(CleanValue(v));
  }

  /** `_clean_record`: the same columns, every value cleaned. */
  function CleanRecord(record: Record): (r: map<string, string>)
    ensures r.Keys == record.Keys
    ensures forall key :: key in r ==> r[key] == CleanValue(record[key])
  {
    MapValues(record, CleanValue)
  }

  /** A dictionary comprehension applying `f` to every value. */
  function MapValues(record: Record, f: Value -> string): (r: map<string, string>)
    ensures r.Keys == record.Keys
    ensures forall key :: key in r ==> r[key] == f(record[key])
  {
    map key | key in record :: f(record[key])
  }

  /** A cleaned record read back as a spreadsheet row. */
  function AsRecord(cleaned: map<string, string>): Record
  {
    map key | key in cleaned :: PyStr(cleaned[key])
  }

  /** Applying a value map that is idempotent on its own results twice changes nothing. */
  lemma MapValuesTwice(record: Record, f: Value -> string)
    requires forall v :: f(PyStr(f(v))) == f(v)
    ensures MapValues(AsRecord(MapValues(record, f)), f) == MapValues(record, f)
  {
    var c := MapValues(record, f);
    var again := MapValues(AsRecord(c), f);
    forall key | key in c
      ensures again[key] == c[key]
    {
      assert AsRecord(c)[key] == PyStr(c[key]);
    }
  }

  /** Cleaning a cleaned record changes nothing. */
  lemma CleanRecordIdempotent(record: Record)
    ensures CleanRecord(AsRecord(CleanRecord(record))) == CleanRecord(record)
  {
    forall v
      ensures CleanValue(PyStr(CleanValue(v))) == CleanValue(v)
    {
      CleanValueIdempotent(v);
    }
    MapValuesTwice(record, CleanValue);
  }

  /** `_load_dedupe_data`: each row cleaned and keyed by its position. */
  function LoadDedupeData(rows: seq<Record>): (r: map<int, map<string, string>>)
    ensures forall i :: i in r <==> 0 <= i < |rows|
    ensures forall i :: 0 <= i < |rows| ==> r[i] == CleanRecord(rows[i])
  {
    map i | 0 <= i < |rows| :: CleanRecord(rows[i])
  }

  // ---------------------------------------------------------------------------------
  // The cluster map of `_run_dedupe`
  // ---------------------------------------------------------------------------------

  /** One cluster of the partition: its record ids and their scores. */
  type Cluster = (seq<int>, seq<real>)

  datatype ClusterEntry = ClusterEntry(clusterId: nat, confidence: real)

  /** Python's `zip`: pairs up to the shorter of the two lists. */
  function Zip(records: seq<int>, scores: seq<real>): (r: seq<(int, real)>)
    ensures |r| == if |records| <= |scores| then |records| else |scores|
    ensures forall k :: 0 <= k < |r| ==> r[k] == (records[k], scores[k])
  {
    var n := if |records| <= |scores| then |records| else |scores|;
    seq(n, k requires 0 <= k < n => (records[k], scores[k]))
  }

  /** The (record id, score) pairs the loop visits in a cluster. */
  function Pairs(cluster: Cluster): seq<(int, real)>
  {
    Zip(cluster.0, cluster.1)
  }

  /** The record ids a list of pairs lists. */
  function Ids(pairs: seq<(int, real)>): set<int>
  {
    if pairs == [] then {} else Ids(pairs[..|pairs| - 1]) + {pairs[|pairs| - 1].0}
  }

  /** `m` after `m[id] = {cluster_id, score}` for each pair in order. */
  function AddPairs(m: map<int, ClusterEntry>, clusterId: nat, pairs: seq<(int, real)>)
    : map<int, ClusterEntry>
  {
    if pairs == [] then m
    else
      var last := pairs[|pairs| - 1];
      AddPairs(m, clusterId, pairs[..|pairs| - 1])[last.0 := ClusterEntry(clusterId, last.1)]
  }

  /** The map the loop builds over the whole partition. */
  function ClusterMap(partition: seq<Cluster>): map<int, ClusterEntry>
  {
    if partition == [] then map[]
    else
      var c := |partition| - 1;
      AddPairs(ClusterMap(partition[..c]), c, Pairs(partition[c]))
  }

  /** The cluster-map loop of `_run_dedupe`. */
  method BuildClusterMap(partition: seq<Cluster>) returns (clusters: map<int, ClusterEntry>)
    ensures clusters == ClusterMap(partition)
  {
    clusters := map[];
    var c := 0;
    while c < |partition|
      invariant 0 <= c <= |partition|
      invariant clusters == ClusterMap(partition[..c])
    {
      var records := partition[c].0;
      var scores := partition[c].1;
      ghost var before := clusters;
      ghost var pairs := Pairs(partition[c]);
      var k := 0;
      while k < |records| && k < |scores|
        invariant 0 <= k <= |pairs|
        invariant clusters == AddPairs(before, c, pairs[..k])
      {
        assert pairs[..k + 1][..k] == pairs[..k];
        clusters := clusters[records[k] := ClusterEntry(c, scores[k])];
        k := k + 1;
      }
      assert pairs[..k] == pairs;
      assert partition[..c + 1][..c] == partition[..c];
      c := c + 1;
    }
    assert partition[..c] == partition;
  }

  /** `score` is the score of the last pair that lists `x`. */
  predicate LastScore(pairs: seq<(int, real)>, x: int, score: real)
  {
    exists k :: 0 <= k < |pairs| && pairs[k] == (x, score) &&
      forall j :: k < j < |pairs| ==> pairs[j].0 != x
  }

  /** The effect of adding pairs on one record id: a listed id gets this cluster and the
      score of its last pair; any other id keeps its entry. */
  lemma {:induction false} AddPairsAt(m: map<int, ClusterEntry>, clusterId: nat,
                                      pairs: seq<(int, real)>, x: int)
    ensures x in AddPairs(m, clusterId, pairs) <==> x in m || x in Ids(pairs)
    ensures x !in Ids(pairs) && x in m ==> AddPairs(m, clusterId, pairs)[x] == m[x]
    ensures x in Ids(pairs) ==>
      AddPairs(m, clusterId, pairs)[x].clusterId == clusterId &&
      LastScore(pairs, x, AddPairs(m, clusterId, pairs)[x].confidence)
  {
    if pairs != [] {
      var n := |pairs| - 1;
      var init := pairs[..n];
      AddPairsAt(m, clusterId, init, x);
      var r0 := AddPairs(m, clusterId, init);
      var r := AddPairs(m, clusterId, pairs);
      assert r == r0[pairs[n].0 := ClusterEntry(clusterId, pairs[n].1)];
      if x == pairs[n].0 {
        assert pairs[n] == (x, r[x].confidence);
        assert LastScore(pairs, x, r[x].confidence);
      } else if x in Ids(init) {
        assert r[x] == r0[x];
        var k :| 0 <= k < |init| && init[k] == (x, r0[x].confidence) &&
          forall j :: k < j < |init| ==> init[j].0 != x;
        assert pairs[k] == init[k];
        forall j | k < j < |pairs|
          ensures pairs[j].0 != x
        {
          if j < n {
            assert pairs[j] == init[j];
          }
        }
        assert LastScore(pairs, x, r[x].confidence);
      }
    }
  }

  /** Cluster `c` of the partition lists record id `x`. */
  predicate ListedIn(partition: seq<Cluster>, c: int, x: int)
  {
    0 <= c < |partition| && x in Ids(Pairs(partition[c]))
  }

  /** Some cluster of the partition lists record id `x`. */
  predicate Listed(partition: seq<Cluster>, x: int)
  {
    exists c :: 0 <= c < |partition| && ListedIn(partition, c, x)
  }

  /** The cluster map holds exactly the record ids the partition lists. */
  lemma {:induction false} ClusterMapKeys(partition: seq<Cluster>, x: int)
    ensures x in ClusterMap(partition) <==> Listed(partition, x)
  {
    if partition != [] {
      var n := |partition| - 1;
      var init := partition[..n];
      var last := Pairs(partition[n]);
      ClusterMapKeys(init, x);
      AddPairsAt(ClusterMap(init), n, last, x);
      if x in Ids(last) {
        assert ListedIn(partition, n, x);
      } else if Listed(init, x) {
        var c :| 0 <= c < |init| && ListedIn(init, c, x);
        assert ListedIn(init, c, x);
        assert partition[c] == init[c];
        assert ListedIn(partition, c, x);
      } else {
        forall c | 0 <= c < |partition|
          ensures !ListedIn(partition, c, x)
        {
          if c < n {
            assert partition[c] == init[c];
            assert !ListedIn(init, c, x);
          }
        }
      }
    }
  }

  /** The cluster map sends each listed record id to the last cluster that lists it,
      with the score of that cluster's last pair for it. */
  lemma {:induction false} LastClusterWins(partition: seq<Cluster>, x: int)
    requires x in ClusterMap(partition)
    ensures var e := ClusterMap(partition)[x];
      ListedIn(partition, e.clusterId, x) &&
      (forall c :: e.clusterId < c < |partition| ==> !ListedIn(partition, c, x)) &&
      LastScore(Pairs(partition[e.clusterId]), x, e.confidence)
  {
    var n := |partition| - 1;
    var init := partition[..n];
    var last := Pairs(partition[n]);
    AddPairsAt(ClusterMap(init), n, last, x);
    if x !in Ids(last) {
      LastClusterWins(init, x);
      var e := ClusterMap(init)[x];
      assert partition[e.clusterId] == init[e.clusterId];
      forall c | e.clusterId < c < |partition|
        ensures !ListedIn(partition, c, x)
      {
        if c < n {
          assert !ListedIn(init, c, x);
          assert partition[c] == init[c];
        } else {
          assert x !in Ids(Pairs(partition[c]));
        }
      }
    }
  }

  /** The `cluster_id` and `confidence` columns: row `i` reads `clusters[i]`, and a row no
      cluster lists raises `KeyError`. */
  function ClusterColumns(rowCount: nat, clusters: map<int, ClusterEntry>)
    : (r: Result<seq<ClusterEntry>>)
    ensures r.Err? <==> exists i :: 0 <= i < rowCount && i !in clusters
    ensures r.Err? ==> r.error == KeyError
    ensures r.Ok? ==> (|r.value| == rowCount &&
      forall i :: 0 <= i < rowCount ==> r.value[i] == clusters[i])
  {
    if forall i :: 0 <= i < rowCount ==> i in clusters then
      Ok(seq(rowCount, i requires 0 <= i < rowCount => clusters[i]))
    else
      Err(KeyError)
  }

  /** When the partition lists every row, each row gets the last cluster that lists it. */
  lemma ColumnsOfCoveringPartition(rowCount: nat, partition: seq<Cluster>)
    requires forall i :: 0 <= i < rowCount ==> Listed(partition, i)
    ensures ClusterColumns(rowCount, ClusterMap(partition)).Ok?
    ensures forall i :: 0 <= i < rowCount ==>
      var c := ClusterColumns(rowCount, ClusterMap(partition)).value[i].clusterId;
      ListedIn(partition, c, i) && forall c' :: c < c' < |partition| ==> !ListedIn(partition, c', i)
  {
    forall i | 0 <= i < rowCount
      ensures i in ClusterMap(partition)
    {
      ClusterMapKeys(partition, i);
    }
    forall i | 0 <= i < rowCount
      ensures var c := ClusterMap(partition)[i].clusterId;
        ListedIn(partition, c, i) && forall c' :: c < c' < |partition| ==> !ListedIn(partition, c', i)
    {
      LastClusterWins(partition, i);
    }
  }

  /** A row no cluster lists makes the column assignment raise `KeyError`. */
  lemma UnlistedRowFails(rowCount: nat, partition: seq<Cluster>, i: int)
    requires 0 <= i < rowCount
    requires !Listed(partition, i)
    ensures ClusterColumns(rowCount, ClusterMap(partition)) == Err(KeyError)
  {
    ClusterMapKeys(partition, i);
  }

  // ---------------------------------------------------------------------------------
  // Merging a cluster
  // ---------------------------------------------------------------------------------

  /** `_url_relevance`: a missing URL ranks lowest, a DOI link next, any other link
      highest. */
  function UrlRelevance(url: string): (r: int)
    ensures 0 <= r <= 2
    ensures r == 0 <==> url == "" || url == "N/A"
    ensures r == 1 <==> url != "" && url != "N/A" && Contains(url, "doi.org")
  {
    if url == "" || url == "N/A" then 0
    else if Contains(url, "doi.org") then 1
    else 2
  }

  /** A row of the clustered table, with the columns `_merge_cluster` reads. The
      pass-through columns keep their dynamic values; `doi` and `url` are the strings
      the merge measures and ranks (the loaders fill their missing cells with "N/A").
      The keywords cell stays dynamic: no loader fills it, so an empty cell of a CSV
      export is NaN. */
  datatype DedupRow = DedupRow(
    title: Value, authors: Value, source: Value, abstractText: Value, year: Value,
    keywords: Value, doi: string, url: string, confidence: real)

  /** The merged row. The keywords column is the set of keys; the order in which
      `";".join` lists them is Python's set iteration order. */
  datatype Merged = Merged(
    title: Value, authors: Value, keywords: set<string>, source: Value,
    abstractText: Value, doi: string, url: string, year: Value, inclusion: Value)

  /** The position `idxmax` and `max(..., key=...)` pick: the first of maximal key. */
  function FirstMax(keys: seq<real>): (r: nat)
    requires |keys| > 0
    ensures r < |keys|
    ensures forall i :: 0 <= i < |keys| ==> keys[i] <= keys[r]
    ensures forall i :: 0 <= i < r ==> keys[i] < keys[r]
  {
    if |keys| == 1 then 0
    else
      var best := FirstMax(keys[..|keys| - 1]);
      if keys[|keys| - 1] > keys[best] then |keys| - 1 else best
  }

  /** The row `idxmax` picks on the confidence column: the first of highest confidence. */
  function Representative(group: seq<DedupRow>): (i: nat)
    requires |group| > 0
    ensures i < |group|
    ensures forall j :: 0 <= j < |group| ==> group[j].confidence <= group[i].confidence
    ensures forall j :: 0 <= j < i ==> group[j].confidence < group[i].confidence
  {
    var keys := seq(|group|, j requires 0 <= j < |group| => group[j].confidence);
    assert forall j :: 0 <= j < |group| ==> keys[j] == group[j].confidence;
    FirstMax(keys)
  }

  /** The row `max(..., key=len)` picks on the DOI column: the first longest DOI. */
  function LongestDoi(group: seq<DedupRow>): (i: nat)
    requires |group| > 0
    ensures i < |group|
    ensures forall j :: 0 <= j < |group| ==> |group[j].doi| <= |group[i].doi|
    ensures forall j :: 0 <= j < i ==> |group[j].doi| < |group[i].doi|
  {
    var keys := seq(|group|, j requires 0 <= j < |group| => |group[j].doi| as real);
    assert forall j :: 0 <= j < |group| ==> keys[j] == |group[j].doi| as real;
    FirstMax(keys)
  }

  /** The row `max(..., key=_url_relevance)` picks: the first URL of highest relevance. */
  function MostRelevantUrl(group: seq<DedupRow>): (i: nat)
    requires |group| > 0
    ensures i < |group|
    ensures forall j :: 0 <= j < |group| ==> UrlRelevance(group[j].url) <= UrlRelevance(group[i].url)
    ensures forall j :: 0 <= j < i ==> UrlRelevance(group[j].url) < UrlRelevance(group[i].url)
  {
    var keys := seq(|group|, j requires 0 <= j < |group| => UrlRelevance(group[j].url) as real);
    assert forall j :: 0 <= j < |group| ==> keys[j] == UrlRelevance(group[j].url) as real;
    FirstMax(keys)
  }

  /** One keyword as `_merge_cluster` normalises it: lower-cased, then stripped. */
  function CleanKey(piece: string): string
  {
    Strip(Lower(piece))
  }

  /** The image of a list of strings under `f`, as a set. */
  function Image(pieces: seq<string>, f: string -> string): set<string>
  {
    if pieces == [] then {} else Image(pieces[..|pieces| - 1], f) + {f(pieces[|pieces| - 1])}
  }

  lemma {:induction false} ImageMembers(pieces: seq<string>, f: string -> string)
    ensures forall key :: key in Image(pieces, f) <==> exists k :: 0 <= k < |pieces| && key == f(pieces[k])
  {
    if pieces != [] {
      var n := |pieces| - 1;
      ImageMembers(pieces[..n], f);
      forall key | key in Image(pieces, f)
        ensures exists k :: 0 <= k < |pieces| && key == f(pieces[k])
      {
        assert Image(pieces, f) == Image(pieces[..n], f) + {f(pieces[n])};
        if key != f(pieces[n]) {
          assert key in Image(pieces[..n], f);
          var k :| 0 <= k < |pieces[..n]| && key == f(pieces[..n][k]);
          assert pieces[..n][k] == pieces[k];
        }
      }
      forall k | 0 <= k < n
        ensures f(pieces[k]) in Image(pieces, f)
      {
        assert pieces[..n][k] == pieces[k];
      }
    }
  }

  /** The keys of one keywords cell: its ";"-separated pieces, normalised. */
  function CellKeys(keywords: string): set<string>
  {
    Image(Split(keywords, ';'), CleanKey)
  }

  /** The text of a keywords cell, with any cell that is not a string read as the empty
      text, as `fillna("")` would leave it. */
  function KeywordsText(v: Value): string
  {
    if v.PyStr? then v.s else ""
  }

  function RowKeys(row: DedupRow): set<string>
  {
    CellKeys(KeywordsText(row.keywords))
  }

  /** Every keywords cell of the group is a string, so `keys.split(";")` applies. */
  predicate KeywordsAreText(group: seq<DedupRow>)
  {
    forall i :: 0 <= i < |group| ==> group[i].keywords.PyStr?
  }

  /** The union of `f` over the rows of a group. */
  function UnionOf(group: seq<DedupRow>, f: DedupRow -> set<string>): set<string>
  {
    if group == [] then {} else UnionOf(group[..|group| - 1], f) + f(group[|group| - 1])
  }

  /** The union of the keys of every keywords cell of the group. */
  function AllKeys(group: seq<DedupRow>): set<string>
  {
    UnionOf(group, RowKeys)
  }

  lemma {:induction false} UnionOfConcat(a: seq<DedupRow>, b: seq<DedupRow>, f: DedupRow -> set<string>)
    ensures UnionOf(a + b, f) == UnionOf(a, f) + UnionOf(b, f)
  {
    if b != [] {
      var n := |b| - 1;
      UnionOfConcat(a, b[..n], f);
      assert (a + b)[..|a + b| - 1] == a + b[..n];
      assert (a + b)[|a + b| - 1] == b[n];
    } else {
      assert a + b == a;
    }
  }

  lemma {:induction false} UnionOfMembers(group: seq<DedupRow>, f: DedupRow -> set<string>)
    ensures forall key :: key in UnionOf(group, f) <==> exists i :: 0 <= i < |group| && key in f(group[i])
  {
    if group != [] {
      var n := |group| - 1;
      UnionOfMembers(group[..n], f);
      forall key | key in UnionOf(group, f)
        ensures exists i :: 0 <= i < |group| && key in f(group[i])
      {
        assert UnionOf(group, f) == UnionOf(group[..n], f) + f(group[n]);
        if key !in f(group[n]) {
          assert key in UnionOf(group[..n], f);
          var i :| 0 <= i < |group[..n]| && key in f(group[..n][i]);
          assert group[..n][i] == group[i];
        }
      }
      forall i, key | 0 <= i < n && key in f(group[i])
        ensures key in UnionOf(group, f)
      {
        assert group[..n][i] == group[i];
      }
    }
  }

  /** The merged row of a non-empty group. */
  function MergeOf(group: seq<DedupRow>): Merged
    requires group != []
  {
    var rep := group[Representative(group)];
    Merged(rep.title, rep.authors, AllKeys(group), rep.source, rep.abstractText,
           group[LongestDoi(group)].doi, group[MostRelevantUrl(group)].url, rep.year, PyNone)
  }

  /** `_merge_cluster` as written. An empty group makes `idxmax` raise `ValueError`; a
      keywords cell that is not a string (NaN for an empty cell) has no `split`, which
      raises `AttributeError`. */
  function MergeCluster(group: seq<DedupRow>): (r: Result<Merged>)
    ensures r.Err? <==> group == [] || !KeywordsAreText(group)
    ensures r.Err? ==> r.error == if group == [] then ValueError else AttributeError
    ensures r.Ok? ==> r.value.inclusion == PyNone && r.value.keywords == AllKeys(group)
  {
    if group == [] then Err(ValueError)
    else if !KeywordsAreText(group) then Err(AttributeError)
    else Ok(MergeOf(group))
  }

  /** `_merge_cluster` with a missing keywords cell read as the empty text: only an
      empty group fails, and where every cell is a string it is the merge as written. */
  function MergeClusterFilled(group: seq<DedupRow>): (r: Result<Merged>)
    ensures r.Err? <==> group == []
    ensures r.Err? ==> r.error == ValueError
    ensures r.Ok? ==> r.value.inclusion == PyNone && r.value.keywords == AllKeys(group)
    ensures KeywordsAreText(group) ==> r == MergeCluster(group)
  {
    if group == [] then Err(ValueError) else Ok(MergeOf(group))
  }

  /** As written, one empty keywords cell in a group of otherwise mergeable rows makes the
      whole merge fail, while the filled merge succeeds. */
  lemma MergeClusterFailsOnEmptyKeywords()
    ensures var row := DedupRow(PyStr("t"), PyStr("a"), PyStr("s"), PyStr(""), PyInt(2020),
                                PyNaN, "N/A", "N/A", 1.0);
      MergeCluster([row]) == Err(AttributeError) && MergeClusterFilled([row]).Ok?
  {
    var row := DedupRow(PyStr("t"), PyStr("a"), PyStr("s"), PyStr(""), PyInt(2020),
                        PyNaN, "N/A", "N/A", 1.0);
    assert ![row][0].keywords.PyStr?;
  }

  /** The merged row copies its bibliographic columns from a row of highest confidence
      (the first such), takes a longest DOI of the group and a URL of highest
      relevance. */
  lemma MergedRowChoices(group: seq<DedupRow>)
    requires group != []
    ensures var m := MergeClusterFilled(group).value;
      (exists i :: 0 <= i < |group| &&
        (forall j :: 0 <= j < |group| ==> group[j].confidence <= group[i].confidence) &&
        (forall j :: 0 <= j < i ==> group[j].confidence < group[i].confidence) &&
        m.title == group[i].title && m.authors == group[i].authors &&
        m.source == group[i].source && m.abstractText == group[i].abstractText &&
        m.year == group[i].year)
    ensures var m := MergeClusterFilled(group).value;
      (exists i :: 0 <= i < |group| && m.doi == group[i].doi) &&
      forall j :: 0 <= j < |group| ==> |group[j].doi| <= |m.doi|
    ensures var m := MergeClusterFilled(group).value;
      (exists i :: 0 <= i < |group| && m.url == group[i].url) &&
      forall j :: 0 <= j < |group| ==> UrlRelevance(group[j].url) <= UrlRelevance(m.url)
  {
    var i := Representative(group);
    var d := LongestDoi(group);
    var u := MostRelevantUrl(group);
    var m := MergeClusterFilled(group).value;
    assert m.title == group[i].title && m.doi == group[d].doi && m.url == group[u].url;
  }

  /** The merged keywords of two groups together are the union of their merged
      keywords: the merge does not depend on how rows are split or ordered. */
  lemma MergedKeywordsAreUnion(a: seq<DedupRow>, b: seq<DedupRow>)
    ensures AllKeys(a + b) == AllKeys(a) + AllKeys(b)
  {
    UnionOfConcat(a, b, RowKeys);
  }

  /** A merged key is exactly a normalised piece of some row's keywords cell; every
      merged key is stripped and has no capital letter. */
  lemma MergedKeysAreClean(group: seq<DedupRow>)
    ensures forall key :: key in AllKeys(group) <==>
      exists i :: 0 <= i < |group| && key in RowKeys(group[i])
    ensures forall key :: key in AllKeys(group) ==> Strip(key) == key && Uncapitalised(key)
  {
    UnionOfMembers(group, RowKeys);
    forall key | key in AllKeys(group)
      ensures Strip(key) == key && Uncapitalised(key)
    {
      var i :| 0 <= i < |group| && key in RowKeys(group[i]);
      var pieces := Split(KeywordsText(group[i].keywords), ';');
      ImageMembers(pieces, CleanKey);
      var k :| 0 <= k < |pieces| && key == CleanKey(pieces[k]);
      StripLowerClean(pieces[k]);
    }
  }

  /** `key.lower().strip()` is stripped and has no capital letter. */
  lemma StripLowerClean(s: string)
    ensures Strip(CleanKey(s)) == CleanKey(s)
    ensures Uncapitalised(CleanKey(s))
  {
    var t := Lower(s);
    StripIdempotent(t);
    StripCharsKeeps(t, Whitespace);
    var r := Strip(t);
    forall i | 0 <= i < |r|
      ensures !('A' <= r[i] <= 'Z')
    {
      assert r[i] in t;
      var j :| 0 <= j < |t| && t[j] == r[i];
      LowerCharUncapital(s[j]);
    }
  }

  /** A plain link always beats DOI links and missing URLs: when some row has a URL
      that is neither missing nor a DOI link, the merged URL is such a link. */
  lemma MergedUrlPrefersPlainLink(group: seq<DedupRow>, i: int)
    requires 0 <= i < |group|
    requires UrlRelevance(group[i].url) == 2
    ensures MergeClusterFilled(group).Ok?
    ensures var url := MergeClusterFilled(group).value.url;
      url != "" && url != "N/A" && !Contains(url, "doi.org")
  {
  }

  /** When every URL of the group is missing, the merged URL is the first row's. */
  lemma MergedUrlOfMissingLinks(group: seq<DedupRow>)
    requires |group| > 0
    requires forall i :: 0 <= i < |group| ==> UrlRelevance(group[i].url) == 0
    ensures MergeClusterFilled(group).Ok? && MergeClusterFilled(group).value.url == group[0].url
  {
    var k := MostRelevantUrl(group);
    assert UrlRelevance(group[0].url) == 0 && UrlRelevance(group[k].url) == 0;
    assert k == 0;
  }
}
