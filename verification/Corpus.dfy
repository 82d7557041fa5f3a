/** The shared passage corpus: a deduplicating, batched backfill into a table keyed by source
    content, and what readers see through it. */
module Corpus {
  import opened Sequences

  const BATCH_SIZE := 500

  /** A per-publication row: its natural key, what it holds (if anything), and when it was written. */
  datatype SourceRow<K, P> = SourceRow(key: K, payload: Option<P>, createdAt: int)

  /** A corpus row: its derived id and the content kept for the key. */
  datatype Entry<P> = Entry(id: string, payload: P)

  predicate Holds<K(==), P>(rows: seq<SourceRow<K, P>>, k: K) {
    exists i :: 0 <= i < |rows| && rows[i].key == k && rows[i].payload.Some?
  }

  /** r is a row that holds something for k, and none such is newer. Ties may go to any of them. */
  predicate IsNewest<K(==), P>(rows: seq<SourceRow<K, P>>, k: K, r: SourceRow<K, P>) {
    && r.key == k && r.payload.Some?
    && forall i :: 0 <= i < |rows| && rows[i].key == k && rows[i].payload.Some? ==> rows[i].createdAt <= r.createdAt
  }

  function NewestIndex<K(==, !new), P>(rows: seq<SourceRow<K, P>>, k: K, n: nat): (i: nat)
    requires n <= |rows| && Holds(rows[..n], k)
    ensures i < n && IsNewest(rows[..n], k, rows[i])
    decreases n
  {
    var m := n - 1;
    HoldsExtends(rows, m);
    var fits := rows[m].key == k && rows[m].payload.Some?;
    if !Holds(rows[..m], k) then
      assert forall j :: 0 <= j < m ==> rows[..m][j] == rows[j];
      m
    else
      var i := NewestIndex(rows, k, m);
      assert forall j :: 0 <= j < m ==> rows[..m][j] == rows[j];
      if fits && rows[m].createdAt > rows[i].createdAt then m else i
  }

  /** The insert of one backfill: existing entries stay, and every key that holds something and has
      a mapped id gets one entry with that id and a newest content. */
  ghost predicate Filled<K(!new), P(!new)>(
    rows: seq<SourceRow<K, P>>, ids: map<string, string>, keyText: K -> string,
    before: map<K, Entry<P>>, after: map<K, Entry<P>>
  ) {
    && (forall k :: k in before ==> k in after && after[k] == before[k])
    && (forall k :: k in after <==> k in before || (Holds(rows, k) && keyText(k) in ids))
    && (forall k :: k in after && k !in before ==>
          keyText(k) in ids && after[k].id == ids[keyText(k)]
          && exists i :: 0 <= i < |rows| && IsNewest(rows, k, rows[i]) && after[k].payload == rows[i].payload.value)
  }

  function Keys(mapping: seq<(string, string)>): seq<string> {
    Map((m: (string, string)) => m.0, mapping)
  }

  /** The mapping as a dictionary. */
  function IdMap(mapping: seq<(string, string)>): map<string, string> {
    if mapping == [] then map[]
    else
      var m := mapping[|mapping| - 1];
      IdMap(mapping[..|mapping| - 1])[m.0 := m.1]
  }

  lemma {:induction false} IdMapKeys(mapping: seq<(string, string)>, t: string)
    ensures t in IdMap(mapping) <==> t in Keys(mapping)
  {
    if mapping != [] {
      var n := |mapping| - 1;
      IdMapKeys(mapping[..n], t);
      assert Keys(mapping) == Keys(mapping[..n]) + [mapping[n].0];
    }
  }

  /** A mapping without repeated keys is held whole: every pair, and nothing else. */
  lemma {:induction false} IdMapHoldsPairs(mapping: seq<(string, string)>)
    requires Distinct(Keys(mapping))
    ensures forall i :: 0 <= i < |mapping| ==>
      mapping[i].0 in IdMap(mapping) && IdMap(mapping)[mapping[i].0] == mapping[i].1
    ensures |IdMap(mapping)| == |mapping|
  {
    if mapping != [] {
      var n := |mapping| - 1;
      var rest := mapping[..n];
      assert Keys(mapping) == Keys(rest) + [mapping[n].0];
      assert forall i :: 0 <= i < n ==> Keys(mapping)[i] == Keys(rest)[i] == rest[i].0;
      IdMapHoldsPairs(rest);
      IdMapKeys(rest, mapping[n].0);
      assert forall i :: 0 <= i < n ==> Keys(mapping)[i] != Keys(mapping)[n];
      assert mapping[n].0 !in Keys(rest);
      forall i | 0 <= i < |mapping|
        ensures mapping[i].0 in IdMap(mapping) && IdMap(mapping)[mapping[i].0] == mapping[i].1
      {
        assert i < n ==> rest[i] == mapping[i] && Keys(mapping)[i] != Keys(mapping)[n];
      }
    }
  }

  lemma LoadOne(mapping: seq<(string, string)>, n: nat)
    requires n < |mapping| && Distinct(Keys(mapping[..n]))
    ensures IdMap(mapping[..n + 1]) == IdMap(mapping[..n])[mapping[n].0 := mapping[n].1]
    ensures mapping[n].0 !in IdMap(mapping[..n]) ==> Distinct(Keys(mapping[..n + 1]))
    ensures mapping[n].0 in IdMap(mapping[..n]) ==> !Distinct(Keys(mapping))
  {
    var t := mapping[n].0;
    var keys := Keys(mapping[..n]);
    assert mapping[..n + 1][..n] == mapping[..n];
    assert Keys(mapping[..n + 1]) == keys + [t];
    IdMapKeys(mapping[..n], t);
    if t in keys {
      var i :| 0 <= i < n && keys[i] == t;
      assert Keys(mapping)[i] == t && Keys(mapping)[n] == t;
    }
  }

  /** Load the id mapping in batches into an empty table whose key is unique. Succeeds exactly
      when no key occurs twice. */
  method LoadMapping(mapping: seq<(string, string)>) returns (loaded: Option<map<string, string>>)
    ensures loaded == if Distinct(Keys(mapping)) then Some(IdMap(mapping)) else None
  {
    var ids: map<string, string> := map[];
    var start := 0;
    while start < |mapping|
      invariant 0 <= start <= |mapping|
      invariant ids == IdMap(mapping[..start]) && Distinct(Keys(mapping[..start]))
    {
      var end := if start + BATCH_SIZE <= |mapping| then start + BATCH_SIZE else |mapping|;
      var batch := mapping[start..end];
      for i := 0 to |batch|
        invariant ids == IdMap(mapping[..start + i]) && Distinct(Keys(mapping[..start + i]))
      {
        LoadOne(mapping, start + i);
        if batch[i].0 in ids {
          return None;
        }
        ids := ids[batch[i].0 := batch[i].1];
      }
      start := end;
    }
    assert mapping[..start] == mapping;
    return Some(ids);
  }

  /** The distinct keys of the rows that hold something. */
  method HeldKeys<K(==), P>(rows: seq<SourceRow<K, P>>) returns (keys: seq<K>)
    ensures Distinct(keys)
    ensures forall i :: 0 <= i < |keys| ==> Holds(rows, keys[i])
    ensures forall i :: 0 <= i < |rows| && rows[i].payload.Some? ==> rows[i].key in keys
  {
    keys := [];
    for n := 0 to |rows|
      invariant Distinct(keys)
      invariant forall i :: 0 <= i < |keys| ==> Holds(rows, keys[i])
      invariant forall i :: 0 <= i < n && rows[i].payload.Some? ==> rows[i].key in keys
    {
      if rows[n].payload.Some? && rows[n].key !in keys {
        keys := keys + [rows[n].key];
      }
    }
  }

  class CorpusTable<K(==, !new), P(==, !new)> {
    var entries: map<K, Entry<P>>

    constructor ()
      ensures entries == map[]
    {
      entries := map[];
    }

    /** INSERT ... SELECT DISTINCT ON (key) ... ORDER BY created_at DESC ... ON CONFLICT DO NOTHING. */
    method InsertNewest(rows: seq<SourceRow<K, P>>, ids: map<string, string>, keyText: K -> string)
      modifies this
      ensures Filled(rows, ids, keyText, old(entries), entries)
    {
      var i := 0;
      ghost var before := entries;
      while i < |rows|
        invariant 0 <= i <= |rows|
        invariant forall k :: k in before ==> k in entries && entries[k] == before[k]
        invariant forall k :: k in entries <==> k in before || (Holds(rows[..i], k) && keyText(k) in ids)
        invariant forall k :: k in entries && k !in before ==>
          keyText(k) in ids && entries[k].id == ids[keyText(k)]
          && exists j :: 0 <= j < |rows| && IsNewest(rows, k, rows[j]) && entries[k].payload == rows[j].payload.value
      {
        var r := rows[i];
        HoldsExtends(rows, i);
        if r.payload.Some? && keyText(r.key) in ids && r.key !in entries {
          assert rows[..|rows|] == rows;
          assert Holds(rows, r.key);
          var j := NewestIndex(rows, r.key, |rows|);
          entries := entries[r.key := Entry(ids[keyText(r.key)], rows[j].payload.value)];
        }
        i := i + 1;
      }
      assert rows[..i] == rows;
    }

    /** Load the mapping, insert through it, drop the mapping. A duplicate key in the mapping
        aborts the whole transaction. */
    method BackfillViaMapping(mapping: seq<(string, string)>, rows: seq<SourceRow<K, P>>, keyText: K -> string)
        returns (ok: bool)
      modifies this
      ensures ok <==> Distinct(Keys(mapping))
      ensures !ok ==> entries == old(entries)
      ensures ok ==> Filled(rows, IdMap(mapping), keyText, old(entries), entries)
    {
      if mapping == [] {
        return true;
      }
      var loaded := LoadMapping(mapping);
      if loaded.None? {
        return false;
      }
      InsertNewest(rows, loaded.value, keyText);
      ok := true;
    }

    /** Map every key that holds something to its derived id, then backfill through the mapping. */
    method Backfill(rows: seq<SourceRow<K, P>>, keyText: K -> string, derive: string -> string) returns (ok: bool)
      modifies this
      ensures ok <==> TextsTellKeysApart(rows, keyText)
      ensures !ok ==> entries == old(entries)
      ensures ok ==> Backfilled(rows, keyText, derive, old(entries), entries)
    {
      var keys := HeldKeys(rows);
      var mapping := Map((k: K) => (keyText(k), derive(keyText(k))), keys);
      MappingOfKeys(rows, keys, keyText, derive, mapping);
      ok := BackfillViaMapping(mapping, rows, keyText);
    }
  }

  /** No two keys that hold something share a text. */
  ghost predicate TextsTellKeysApart<K(!new), P>(rows: seq<SourceRow<K, P>>, keyText: K -> string) {
    forall j, k :: Holds(rows, j) && Holds(rows, k) && keyText(j) == keyText(k) ==> j == k
  }

  /** What a backfill leaves: existing entries untouched; one entry for every key that holds something;
      each new entry with the id derived from its key and a newest content of that key. */
  ghost predicate Backfilled<K(!new), P(!new)>(
    rows: seq<SourceRow<K, P>>, keyText: K -> string, derive: string -> string,
    before: map<K, Entry<P>>, after: map<K, Entry<P>>
  ) {
    && (forall k :: k in before ==> k in after && after[k] == before[k])
    && (forall k :: k in after <==> k in before || Holds(rows, k))
    && (forall k :: k in after && k !in before ==>
          after[k].id == derive(keyText(k))
          && exists i :: 0 <= i < |rows| && IsNewest(rows, k, rows[i]) && after[k].payload == rows[i].payload.value)
  }

  lemma MappingOfKeys<K(!new), P>(
    rows: seq<SourceRow<K, P>>, keys: seq<K>, keyText: K -> string, derive: string -> string,
    mapping: seq<(string, string)>
  )
    requires Distinct(keys) && (forall k :: k in keys <==> Holds(rows, k))
    requires mapping == Map((k: K) => (keyText(k), derive(keyText(k))), keys)
    ensures Distinct(Keys(mapping)) <==> TextsTellKeysApart(rows, keyText)
    ensures Distinct(Keys(mapping)) ==>
      forall k :: Holds(rows, k) ==> keyText(k) in IdMap(mapping) && IdMap(mapping)[keyText(k)] == derive(keyText(k))
  {
    assert forall i :: 0 <= i < |keys| ==> Keys(mapping)[i] == keyText(keys[i]);
    if Distinct(Keys(mapping)) {
      IdMapHoldsPairs(mapping);
      forall k | Holds(rows, k)
        ensures keyText(k) in IdMap(mapping) && IdMap(mapping)[keyText(k)] == derive(keyText(k))
      {
        assert k in keys;
        var i :| 0 <= i < |keys| && keys[i] == k;
        assert mapping[i] == (keyText(k), derive(keyText(k)));
      }
      forall j, k | Holds(rows, j) && Holds(rows, k) && keyText(j) == keyText(k) ensures j == k {
        assert j in keys && k in keys;
        var a :| 0 <= a < |keys| && keys[a] == j;
        var b :| 0 <= b < |keys| && keys[b] == k;
        assert Keys(mapping)[a] == Keys(mapping)[b];
      }
    } else {
      var a, b :| 0 <= a < b < |Keys(mapping)| && Keys(mapping)[a] == Keys(mapping)[b];
      assert keys[a] in keys && keys[b] in keys;
    }
  }

  lemma HoldsExtends<K(!new), P>(rows: seq<SourceRow<K, P>>, i: nat)
    requires i < |rows|
    ensures forall k :: Holds(rows[..i + 1], k) <==> Holds(rows[..i], k) || (rows[i].key == k && rows[i].payload.Some?)
  {
    forall k
      ensures Holds(rows[..i + 1], k) <==> Holds(rows[..i], k) || (rows[i].key == k && rows[i].payload.Some?)
    {
      assert rows[..i + 1][i] == rows[i];
      if Holds(rows[..i], k) {
        var j :| 0 <= j < i && rows[..i][j].key == k && rows[..i][j].payload.Some?;
        assert rows[..i + 1][j] == rows[..i][j];
      }
      if Holds(rows[..i + 1], k) {
        var j :| 0 <= j < i + 1 && rows[..i + 1][j].key == k && rows[..i + 1][j].payload.Some?;
        assert j < i ==> rows[..i][j] == rows[..i + 1][j];
      }
    }
  }

  // ---------------------------------------------------------------- idempotence

  /** A second run over the same rows changes nothing. */
  lemma BackfillTwice<K(!new), P(!new)>(
    rows: seq<SourceRow<K, P>>, keyText: K -> string, derive: string -> string,
    first: map<K, Entry<P>>, second: map<K, Entry<P>>, third: map<K, Entry<P>>
  )
    requires Backfilled(rows, keyText, derive, first, second)
    requires Backfilled(rows, keyText, derive, second, third)
    ensures third == second
  {
    assert forall k :: k in third <==> k in second;
  }

  /** Everything of a is in b. */
  ghost predicate Within<K(!new), P(!new)>(a: map<K, Entry<P>>, b: map<K, Entry<P>>) {
    forall k :: k in a ==> k in b && b[k] == a[k]
  }

  /** Re-run after an attempt that was only partly applied, whatever part that was: the outcome is a
      completed backfill of what was there at first. */
  lemma BackfillResumed<K(!new), P(!new)>(
    rows: seq<SourceRow<K, P>>, keyText: K -> string, derive: string -> string,
    first: map<K, Entry<P>>, partial: map<K, Entry<P>>, complete: map<K, Entry<P>>, second: map<K, Entry<P>>
  )
    requires Backfilled(rows, keyText, derive, first, complete)
    requires Within(first, partial) && Within(partial, complete)
    requires Backfilled(rows, keyText, derive, partial, second)
    ensures Backfilled(rows, keyText, derive, first, second)
    ensures Within(partial, second)
  {
    forall k | k in second && k !in first
      ensures second[k].id == derive(keyText(k))
      ensures exists i :: 0 <= i < |rows| && IsNewest(rows, k, rows[i]) && second[k].payload == rows[i].payload.value
    {
      if k in partial {
        assert second[k] == partial[k] == complete[k];
      }
    }
  }

  // -------------------------------------------------------------------- passages

  datatype Content = Content(heading: Option<string>, text: string)

  type PassageRow = SourceRow<string, Content>

  /** COALESCE of the row's own text and the corpus text. */
  function ReadText(row: PassageRow, corpus: map<string, Entry<Content>>): Option<string> {
    if row.payload.Some? then Some(row.payload.value.text)
    else if row.key in corpus then Some(corpus[row.key].payload.text)
    else None
  }

  function Nulled(row: PassageRow): PassageRow {
    row.(payload := None)
  }

  /** All rows of one source passage that have a text have the same one, also where the corpus
      already held one. */
  predicate TextsAgree(rows: seq<PassageRow>, before: map<string, Entry<Content>>) {
    && (forall i, j :: 0 <= i < |rows| && 0 <= j < |rows| && rows[i].key == rows[j].key
                       && rows[i].payload.Some? && rows[j].payload.Some? ==>
          rows[i].payload.value.text == rows[j].payload.value.text)
    && (forall i :: 0 <= i < |rows| && rows[i].payload.Some? && rows[i].key in before ==>
          before[rows[i].key].payload.text == rows[i].payload.value.text)
  }

  /** Nulling row i's own text does not change what is read for it. */
  predicate SafeToNull(rows: seq<PassageRow>, i: nat, corpus: map<string, Entry<Content>>)
    requires i < |rows|
  {
    ReadText(Nulled(rows[i]), corpus) == ReadText(rows[i], corpus)
  }

  lemma ContentOf(
    rows: seq<PassageRow>, derive: string -> string,
    before: map<string, Entry<Content>>, corpus: map<string, Entry<Content>>, k: string
  ) returns (i: nat)
    requires Backfilled(rows, (s: string) => s, derive, before, corpus) && Holds(rows, k) && k !in before
    ensures i < |rows| && rows[i].key == k && rows[i].payload.Some? && k in corpus
    ensures corpus[k].payload == rows[i].payload.value
  {
    i :| 0 <= i < |rows| && IsNewest(rows, k, rows[i]) && corpus[k].payload == rows[i].payload.value;
  }

  /** After a backfill, any row that has a text may lose it without any reader noticing, exactly when
      the rows of each source passage agree on their text, and with what the corpus held before. */
  lemma NullingIsSafe(
    rows: seq<PassageRow>, derive: string -> string,
    before: map<string, Entry<Content>>, corpus: map<string, Entry<Content>>
  )
    requires Backfilled(rows, (s: string) => s, derive, before, corpus)
    ensures (forall i: nat :: i < |rows| && rows[i].payload.Some? ==> SafeToNull(rows, i, corpus))
       <==> TextsAgree(rows, before)
  {
    if TextsAgree(rows, before) {
      forall i: nat | i < |rows| && rows[i].payload.Some? ensures SafeToNull(rows, i, corpus) {
        assert Holds(rows, rows[i].key);
        if rows[i].key !in before {
          var j := ContentOf(rows, derive, before, corpus, rows[i].key);
        }
      }
    }
    if forall i: nat :: i < |rows| && rows[i].payload.Some? ==> SafeToNull(rows, i, corpus) {
      forall i: nat | i < |rows| && rows[i].payload.Some?
        ensures rows[i].key in corpus && corpus[rows[i].key].payload.text == rows[i].payload.value.text
      {
        assert Holds(rows, rows[i].key);
        assert SafeToNull(rows, i, corpus);
      }
    }
  }

  // ------------------------------------------------------------------ embeddings

  datatype EmbeddingKey = EmbeddingKey(source: string, model: string, revision: string)

  function EmbeddingText(k: EmbeddingKey): string {
    k.source + ":" + k.model + ":" + k.revision
  }

  lemma SplitAtColon(m: string, r: string, m': string, r': string)
    requires ':' !in m && ':' !in m' && m + ":" + r == m' + ":" + r'
    ensures m == m' && r == r'
  {
    var s := m + ":" + r;
    assert s[|m|] == ':' && s[|m'|] == ':';
    assert forall i :: 0 <= i < |m| ==> s[i] == m[i] != ':';
    assert forall i :: 0 <= i < |m'| ==> s[i] == m'[i] != ':';
    assert s[..|m|] == m && s[..|m'|] == m';
    assert s[|m| + 1..] == r && s[|m'| + 1..] == r';
  }

  /** Source ids all have one length, so key texts tell keys apart when no model name has a colon. */
  lemma EmbeddingTextsDiffer(j: EmbeddingKey, k: EmbeddingKey)
    requires |j.source| == |k.source| && ':' !in j.model && ':' !in k.model
    requires EmbeddingText(j) == EmbeddingText(k)
    ensures j == k
  {
    var n := |j.source|;
    assert EmbeddingText(j)[..n] == j.source && EmbeddingText(k)[..n] == k.source;
    assert EmbeddingText(j)[n + 1..] == j.model + ":" + j.revision;
    assert EmbeddingText(k)[n + 1..] == k.model + ":" + k.revision;
    SplitAtColon(j.model, j.revision, k.model, k.revision);
  }

  /** With a colon in a model name two keys of one passage can share a text; rows that hold both then
      keep the mapping from loading, and the backfill from committing. */
  lemma EmbeddingTextsCollide<V>(source: string, rows: seq<SourceRow<EmbeddingKey, V>>)
    ensures var j, k := EmbeddingKey(source, "m:1", "r"), EmbeddingKey(source, "m", "1:r");
      && j != k && EmbeddingText(j) == EmbeddingText(k)
      && (Holds(rows, j) && Holds(rows, k) ==> !TextsTellKeysApart(rows, EmbeddingText))
  {
    var j, k := EmbeddingKey(source, "m:1", "r"), EmbeddingKey(source, "m", "1:r");
    assert "m:1" + ":" + "r" == "m" + ":" + "1:r";
    assert EmbeddingText(j) == source + ":" + ("m:1" + ":" + "r");
    assert EmbeddingText(k) == source + ":" + ("m" + ":" + "1:r");
    assert j.model != k.model by { assert |"m:1"| == 3; }
  }

  // -------------------------------------------------------------- the whole backfill

  /** Both corpus tables in one transaction. It commits exactly when the embedding key texts tell
      the keys apart, and otherwise leaves both tables as they were. */
  method BackfillCorpus<V(==, !new)>(
    passages: CorpusTable<string, Content>, embeddings: CorpusTable<EmbeddingKey, V>,
    passageRows: seq<PassageRow>, embeddingRows: seq<SourceRow<EmbeddingKey, V>>,
    derivePassage: string -> string, deriveEmbedding: string -> string
  ) returns (committed: bool)
    modifies passages, embeddings
    ensures committed <==> TextsTellKeysApart(embeddingRows, EmbeddingText)
    ensures committed ==>
      Backfilled(passageRows, (s: string) => s, derivePassage, old(passages.entries), passages.entries)
    ensures committed ==>
      Backfilled(embeddingRows, EmbeddingText, deriveEmbedding, old(embeddings.entries), embeddings.entries)
    ensures !committed ==> passages.entries == old(passages.entries) && embeddings.entries == old(embeddings.entries)
  {
    var saved := passages.entries;
    var first := passages.Backfill(passageRows, (s: string) => s, derivePassage);
    assert TextsTellKeysApart(passageRows, (s: string) => s);
    committed := embeddings.Backfill(embeddingRows, EmbeddingText, deriveEmbedding);
    if !committed {
      passages.entries := saved;
    }
  }
}
