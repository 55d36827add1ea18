/**
 * The dashboard's two shared stores and the handlers that change them: the file
 * registry (most recent upload first) and the single list of parsed rows that
 * every upload appends to. Each `FileReader` completion is modelled as one atomic
 * call; the random file id and the upload time are parameters.
 */
module Ingest {
  import opened Wrappers
  import opened Text
  import opened Rows
  import opened Aggregate
  import opened Search

  datatype Status = Processing | Ready | Error

  /** The metadata of a selected file (`File.name`, `File.size`, `File.type`). */
  datatype Upload = Upload(name: string, size: nat, kind: string)

  /** One registry entry; `uploadDate` is the upload time as a timestamp. */
  datatype FileRecord = FileRecord(id: string, name: string, size: nat, kind: string,
                                   uploadDate: int, rowCount: nat, status: Status)

  /** The entry created when an upload starts: still processing, no rows yet. */
  function NewRecord(id: string, file: Upload, date: int): (r: FileRecord)
    ensures r.id == id && r.status == Processing && r.rowCount == 0
    ensures r.name == file.name && r.size == file.size && r.kind == file.kind && r.uploadDate == date
  {
    FileRecord(id, file.name, file.size, file.kind, date, 0, Processing)
  }

  function Ids(files: seq<FileRecord>): set<string>
  {
    set k | 0 <= k < |files| :: files[k].id
  }

  predicate UniqueIds(files: seq<FileRecord>)
  {
    forall i, j :: 0 <= i < j < |files| ==> files[i].id != files[j].id
  }

  /** The row counts the registry reports, added up. */
  function RowsAccounted(files: seq<FileRecord>): nat
  {
    if files == [] then 0 else files[0].rowCount + RowsAccounted(files[1..])
  }

  /** The registry after a completion: every entry with the finished id becomes ready with `n` rows. */
  function MarkReady(files: seq<FileRecord>, id: string, n: nat): (r: seq<FileRecord>)
    ensures |r| == |files|
  {
    if files == [] then []
    else
      var f := files[0];
      [if f.id == id then f.(status := Ready, rowCount := n) else f] + MarkReady(files[1..], id, n)
  }

  /** Completion touches only the entries with the finished file's id, and keeps every id in place. */
  lemma {:induction false} MarkReadyAt(files: seq<FileRecord>, id: string, n: nat, i: nat)
    requires i < |files|
    ensures MarkReady(files, id, n)[i].id == files[i].id
    ensures files[i].id == id ==> MarkReady(files, id, n)[i] == files[i].(status := Ready, rowCount := n)
    ensures files[i].id != id ==> MarkReady(files, id, n)[i] == files[i]
  {
    if i > 0 {
      MarkReadyAt(files[1..], id, n, i - 1);
    }
  }

  /** A completion for an id no longer in the registry leaves the registry as it is. */
  lemma {:induction false} MarkReadyAbsent(files: seq<FileRecord>, id: string, n: nat)
    requires id !in Ids(files)
    ensures MarkReady(files, id, n) == files
  {
    if files != [] {
      assert Ids(files[1..]) <= Ids(files) by {
        forall x | x in Ids(files[1..]) ensures x in Ids(files) {
          var k :| 0 <= k < |files[1..]| && files[1..][k].id == x;
          assert files[k + 1].id == x;
        }
      }
      MarkReadyAbsent(files[1..], id, n);
      assert files[0].id in Ids(files);
    }
  }

  lemma MarkReadyIds(files: seq<FileRecord>, id: string, n: nat)
    ensures UniqueIds(MarkReady(files, id, n)) <==> UniqueIds(files)
    ensures Ids(MarkReady(files, id, n)) == Ids(files)
  {
    var r := MarkReady(files, id, n);
    forall i | 0 <= i < |files| ensures r[i].id == files[i].id {
      MarkReadyAt(files, id, n, i);
    }
  }

  /** With unique ids at most one entry changes, so the reported rows grow by at most `n`. */
  lemma {:induction false} MarkReadyAccounting(files: seq<FileRecord>, id: string, n: nat)
    requires UniqueIds(files)
    ensures RowsAccounted(MarkReady(files, id, n)) <= RowsAccounted(files) + n
  {
    if files != [] {
      var rest := files[1..];
      assert UniqueIds(rest) by {
        forall i, j | 0 <= i < j < |rest| ensures rest[i].id != rest[j].id {
          assert rest[i] == files[i + 1] && rest[j] == files[j + 1];
        }
      }
      if files[0].id == id {
        assert id !in Ids(rest);
        MarkReadyAbsent(rest, id, n);
      } else {
        MarkReadyAccounting(rest, id, n);
      }
    }
  }

  /** The registry without the entries carrying `id`, in their original order. */
  function Without(files: seq<FileRecord>, id: string): (r: seq<FileRecord>)
    ensures |r| <= |files|
  {
    if files == [] then []
    else if files[0].id != id then [files[0]] + Without(files[1..], id)
    else Without(files[1..], id)
  }

  /** Removal keeps exactly the entries with another id. */
  lemma {:induction false} WithoutMember(files: seq<FileRecord>, id: string, f: FileRecord)
    ensures f in Without(files, id) <==> f in files && f.id != id
  {
    if files != [] {
      WithoutMember(files[1..], id, f);
      assert files == [files[0]] + files[1..];
    }
  }

  /** Removal distributes over concatenation, so the surviving entries keep their order. */
  lemma {:induction false} WithoutAppend(a: seq<FileRecord>, b: seq<FileRecord>, id: string)
    ensures Without(a + b, id) == Without(a, id) + Without(b, id)
  {
    if a == [] {
      assert a + b == b;
    } else {
      assert (a + b)[0] == a[0] && (a + b)[1..] == a[1..] + b;
      WithoutAppend(a[1..], b, id);
    }
  }

  /** Removal keeps ids unique and never increases the reported rows. */
  lemma {:induction false} WithoutKeepsInvariant(files: seq<FileRecord>, id: string)
    requires UniqueIds(files)
    ensures UniqueIds(Without(files, id))
    ensures RowsAccounted(Without(files, id)) <= RowsAccounted(files)
  {
    if files != [] {
      var rest := files[1..];
      assert UniqueIds(rest) by {
        forall i, j | 0 <= i < j < |rest| ensures rest[i].id != rest[j].id {
          assert rest[i] == files[i + 1] && rest[j] == files[j + 1];
        }
      }
      WithoutKeepsInvariant(rest, id);
      var r := Without(rest, id);
      if files[0].id != id {
        forall g | g in r ensures g.id != files[0].id {
          WithoutMember(rest, id, g);
          var k :| 0 <= k < |rest| && rest[k] == g;
          assert files[k + 1] == g;
        }
        assert UniqueIds([files[0]] + r) by {
          var s := [files[0]] + r;
          forall i, j | 0 <= i < j < |s| ensures s[i].id != s[j].id {
            if i == 0 {
              assert s[j] == r[j - 1] && s[j] in r;
            } else {
              assert s[i] == r[i - 1] && s[j] == r[j - 1];
            }
          }
        }
      }
    }
  }

  /** With unique ids, removing a present id drops exactly one entry. */
  lemma {:induction false} WithoutPresent(files: seq<FileRecord>, id: string)
    requires UniqueIds(files) && id in Ids(files)
    ensures |Without(files, id)| == |files| - 1
  {
    var rest := files[1..];
    assert UniqueIds(rest) by {
      forall i, j | 0 <= i < j < |rest| ensures rest[i].id != rest[j].id {
        assert rest[i] == files[i + 1] && rest[j] == files[j + 1];
      }
    }
    if files[0].id == id {
      forall g | g in rest ensures g.id != id {
        var k :| 0 <= k < |rest| && rest[k] == g;
        assert files[k + 1] == g;
      }
      WithoutAbsentGivesAll(rest, id);
    } else {
      var k :| 0 <= k < |files| && files[k].id == id;
      assert rest[k - 1].id == id;
      WithoutPresent(rest, id);
    }
  }

  lemma {:induction false} WithoutAbsentGivesAll(files: seq<FileRecord>, id: string)
    requires forall g :: g in files ==> g.id != id
    ensures Without(files, id) == files
  {
    if files != [] {
      assert files[0] in files;
      assert forall g :: g in files[1..] ==> g in files;
      WithoutAbsentGivesAll(files[1..], id);
    }
  }

  /**
   * The source clears the rows when the registry held at most one entry before the
   * removal; with unique ids and a present id, that is exactly when the removal
   * empties the registry.
   */
  lemma RemovalEmptiesRegistry(files: seq<FileRecord>, id: string)
    requires UniqueIds(files) && id in Ids(files)
    ensures |files| <= 1 <==> Without(files, id) == []
  {
    WithoutPresent(files, id);
  }

  /** Removing an unknown id from a one-entry registry keeps the entry (while the rows are cleared). */
  lemma RemovalOfUnknownIdKeepsEntry(files: seq<FileRecord>, id: string)
    requires |files| == 1 && files[0].id != id
    ensures Without(files, id) == files
  {
  }

  lemma NoLineBreaksAppend(a: seq<Row>, b: seq<Row>)
    requires NoLineBreaks(a) && NoLineBreaks(b)
    ensures NoLineBreaks(a + b)
  {
    forall k: nat, key: string | k < |a + b| && key in (a + b)[k] && (a + b)[k][key].Str?
      ensures '\n' !in (a + b)[k][key].s
    {
      if k >= |a| {
        assert (a + b)[k] == b[k - |a|];
      }
    }
  }

  /** `s` in reverse order. */
  function Reversed(s: seq<FileRecord>): (r: seq<FileRecord>)
    ensures |r| == |s|
  {
    if s == [] then [] else [s[|s| - 1]] + Reversed(s[..|s| - 1])
  }

  /** The component state: the registry and the shared rows. */
  class Workspace {
    var files: seq<FileRecord>
    var data: seq<Row>

    /**
     * No text field of the dataset contains a line break. Every method keeps this,
     * so it holds in every state the workspace reaches.
     */
    ghost predicate Clean()
      reads this
    {
      NoLineBreaks(data)
    }

    /**
     * The bookkeeping is consistent: ids are unique, the registry never reports more
     * rows than the dataset holds, and the dataset is clean. Uploads with fresh ids,
     * completions and removals of registered ids keep it.
     */
    ghost predicate Valid()
      reads this
    {
      UniqueIds(files) && RowsAccounted(files) <= |data| && Clean()
    }

    constructor ()
      ensures files == [] && data == []
      ensures Clean() && Valid()
    {
      files := [];
      data := [];
    }

    /** The start of one upload: a processing entry goes in front of the registry. */
    method RegisterUpload(id: string, file: Upload, date: int) returns (rec: FileRecord)
      requires Clean()
      modifies this
      ensures rec == NewRecord(id, file, date)
      ensures files == [rec] + old(files)
      ensures data == old(data)
      ensures Clean()
      ensures Valid() <==> old(Valid()) && id !in Ids(old(files))
    {
      rec := NewRecord(id, file, date);
      ghost var before := files;
      files := [rec] + files;
      if id in Ids(before) {
        var k :| 0 <= k < |before| && before[k].id == id;
        assert files[0].id == files[k + 1].id;
      }
      if UniqueIds(files) {
        forall i, j | 0 <= i < j < |before| ensures before[i].id != before[j].id {
          assert before[i] == files[i + 1] && before[j] == files[j + 1];
        }
      }
      if UniqueIds(before) && id !in Ids(before) {
        forall i, j | 0 <= i < j < |files| ensures files[i].id != files[j].id {
          if i == 0 {
            assert files[j].id == before[j - 1].id && files[j].id in Ids(before);
          } else {
            assert files[i] == before[i - 1] && files[j] == before[j - 1];
          }
        }
      }
    }

    /**
     * The `onload` completion: parse the text, append the rows after all earlier
     * rows, and mark the entry with this id ready with the parsed row count.
     */
    method CompleteIngest(id: string, text: string) returns (parsed: seq<Row>)
      requires Clean()
      modifies this
      ensures parsed == ParseCSV(text)
      ensures data == old(data) + parsed
      ensures files == MarkReady(old(files), id, |parsed|)
      ensures Sum(data) == Plus(Sum(old(data)), Sum(parsed))
      ensures Clean()
      ensures old(Valid()) ==> Valid()
    {
      parsed := ParseCSV(text);
      SumAppend(data, parsed);
      ParsedRowsHaveNoLineBreaks(text);
      NoLineBreaksAppend(data, parsed);
      MarkReadyIds(files, id, |parsed|);
      if UniqueIds(files) {
        MarkReadyAccounting(files, id, |parsed|);
      }
      data := data + parsed;
      files := MarkReady(files, id, |parsed|);
    }

    /**
     * `removeFile(id)`: drop the entries with this id; clear all rows when the
     * registry held at most one entry before the removal.
     */
    method RemoveFile(id: string)
      requires Clean()
      modifies this
      ensures files == Without(old(files), id)
      ensures data == if |old(files)| <= 1 then [] else old(data)
      ensures Clean()
      ensures old(Valid()) && (id in Ids(old(files)) || |old(files)| != 1) ==> Valid()
    {
      if UniqueIds(files) {
        WithoutKeepsInvariant(files, id);
        if id in Ids(files) {
          WithoutPresent(files, id);
        }
      }
      if |files| <= 1 {
        data := [];
      }
      files := Without(files, id);
    }

    /**
     * `handleSemanticSearch` with the language model's answer as a parameter: `None`
     * when the guard returns early and the shown results stay as they were; otherwise
     * the sample sent, with one numbered line per leading row, and the mapped rows.
     */
    method SemanticSearch(query: string, answer: seq<int>) returns (sample: Option<string>, results: Option<seq<Row>>)
      requires Clean()
      ensures sample == SearchRequest(query, data)
      ensures results.Some? <==> sample.Some?
      ensures sample.Some? ==> |Split(sample.value, '\n')| == if |data| < SampleSize then |data| else SampleSize
      ensures results.Some? ==> results.value == SearchResults(data, answer)
    {
      sample := SearchRequest(query, data);
      if sample.None? {
        results := None;
      } else {
        results := Some(SearchResults(data, answer));
      }
    }

    /** `handleFileUpload`: register every selected file in turn, each in front of the previous ones. */
    method HandleFileUpload(uploads: seq<Upload>, ids: seq<string>, dates: seq<int>) returns (recs: seq<FileRecord>)
      requires |ids| == |uploads| && |dates| == |uploads|
      requires Clean()
      modifies this
      ensures |recs| == |uploads|
      ensures forall k :: 0 <= k < |recs| ==> recs[k] == NewRecord(ids[k], uploads[k], dates[k])
      ensures files == Reversed(recs) + old(files)
      ensures data == old(data)
      ensures Clean()
      ensures old(Valid()) && UniqueIds(Reversed(recs) + old(files)) ==> Valid()
    {
      recs := [];
      for k := 0 to |uploads|
        invariant |recs| == k
        invariant forall j :: 0 <= j < k ==> recs[j] == NewRecord(ids[j], uploads[j], dates[j])
        invariant files == Reversed(recs) + old(files)
        invariant data == old(data)
        invariant Clean()
        invariant RowsAccounted(files) == RowsAccounted(old(files))
      {
        var rec := RegisterUpload(ids[k], uploads[k], dates[k]);
        assert files[1..] == Reversed(recs) + old(files);
        assert (recs + [rec])[..k] == recs;
        recs := recs + [rec];
      }
    }
  }

  /**
   * Two uploads whose `onload` completions run one after the other: the dataset grows
   * by both parsed row counts, and the statistics do not depend on which finished first.
   */
  method CompleteTwo(w: Workspace, idA: string, textA: string, idB: string, textB: string)
    requires w.Clean()
    modifies w
    ensures |w.data| == |old(w.data)| + |ParseCSV(textA)| + |ParseCSV(textB)|
    ensures ComputeStats(w.data) == ComputeStats(old(w.data) + ParseCSV(textB) + ParseCSV(textA))
    ensures w.Clean()
    ensures old(w.Valid()) ==> w.Valid()
  {
    var a := w.CompleteIngest(idA, textA);
    var b := w.CompleteIngest(idB, textB);
    StatsOrderIndependent(old(w.data), a, b);
  }
}
