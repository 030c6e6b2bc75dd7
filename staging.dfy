/**
 * The staging directories of the extract and transform steps
 * (dags/etl.py). A directory is modelled as a map from entry name to
 * contents; the order in which the transform step lists its input directory
 * is unspecified, so it visits the entries as a set.
 */
module Staging {
  import opened Naming
  import opened Projection

  /** The extraction staging directory: entry name to text content. */
  type TextDirectory = map<string, string>

  /** The transformation staging directory: entry name to the record dumped there. */
  type RecordDirectory<V> = map<string, Record<V>>

  /** The names the extract step writes for `n` rows. */
  function ExtractedNames(n: nat): set<string> {
    set i | 0 <= i < n :: ExtractedName(i)
  }

  /** The entries of a directory listing that the transform step keeps. */
  function TextEntries(entries: set<string>): set<string> {
    set e | e in entries && IsTextEntry(e)
  }

  /** The names the transform step writes for the entries it keeps. */
  function TransformedNames(entries: set<string>): set<string> {
    set e | e in entries :: TransformedName(e)
  }

  /** One artifact per row: the `n` extracted names are pairwise distinct. */
  lemma {:induction false} ExtractedNamesCount(n: nat)
    ensures |ExtractedNames(n)| == n
  {
    if n > 0 {
      ExtractedNamesCount(n - 1);
      ExtractedNamesStep(n - 1);
    }
  }

  /** Row `i` adds a name not written for any earlier row. */
  lemma ExtractedNamesStep(i: nat)
    ensures ExtractedNames(i + 1) == ExtractedNames(i) + {ExtractedName(i)}
    ensures ExtractedName(i) !in ExtractedNames(i)
  {
    if ExtractedName(i) in ExtractedNames(i) {
      var k :| 0 <= k < i && ExtractedName(k) == ExtractedName(i);
      ExtractedNameInjective(k, i);
    }
  }

  /** The transform step's filter keeps every extraction artifact. */
  lemma ExtractedNamesAreText(n: nat)
    ensures TextEntries(ExtractedNames(n)) == ExtractedNames(n)
  {
    forall e | e in ExtractedNames(n) ensures IsTextEntry(e) {
      var i :| 0 <= i < n && ExtractedName(i) == e;
      ExtractedNameIsText(i);
    }
  }

  /** Distinct entries get distinct output names, so no output overwrites another. */
  lemma {:induction false} TransformedNamesCount(entries: set<string>)
    ensures |TransformedNames(entries)| == |entries|
    decreases |entries|
  {
    if entries != {} {
      var e :| e in entries;
      var rest := entries - {e};
      TransformedNamesCount(rest);
      assert TransformedNames(entries) == TransformedNames(rest) + {TransformedName(e)};
      if TransformedName(e) in TransformedNames(rest) {
        var f :| f in rest && TransformedName(f) == TransformedName(e);
        TransformedNameInjective(e, f);
      }
    }
  }

  /**
   * The output names of the text entries among the `n` extracted names
   * number exactly `n`, and include the output name of every row's
   * staging file.
   */
  lemma PipelineCount(n: nat)
    ensures |TransformedNames(TextEntries(ExtractedNames(n)))| == n
    ensures forall i :: 0 <= i < n ==> TransformedName(ExtractedName(i)) in TransformedNames(TextEntries(ExtractedNames(n)))
  {
    ExtractedNamesAreText(n);
    TransformedNamesCount(ExtractedNames(n));
    ExtractedNamesCount(n);
    forall i | 0 <= i < n ensures TransformedName(ExtractedName(i)) in TransformedNames(ExtractedNames(n)) {
      assert ExtractedName(i) in ExtractedNames(n);
    }
  }

  /**
   * `dir` is `staged` after the first `n` rows were written: the names of
   * those rows hold the rows, every other entry is as it was.
   */
  ghost predicate WroteRows(staged: TextDirectory, rows: seq<string>, n: nat, dir: TextDirectory)
    requires n <= |rows|
  {
    && dir.Keys == staged.Keys + ExtractedNames(n)
    && (forall i :: 0 <= i < n ==> dir[ExtractedName(i)] == rows[i])
    && (forall name :: name in staged && name !in ExtractedNames(n) ==> dir[name] == staged[name])
  }

  lemma WroteRowsStep(staged: TextDirectory, rows: seq<string>, n: nat, dir: TextDirectory)
    requires n < |rows| && WroteRows(staged, rows, n, dir)
    ensures WroteRows(staged, rows, n + 1, dir[ExtractedName(n) := rows[n]])
  {
    ExtractedNamesStep(n);
    var dir' := dir[ExtractedName(n) := rows[n]];
    forall i | 0 <= i < n ensures dir'[ExtractedName(i)] == rows[i] {
      assert ExtractedName(i) in ExtractedNames(n);
    }
  }

  /**
   * The extract step's loop: row `i` of the source column is written to
   * `extracted_<i>.txt`, replacing any file of that name; other entries of
   * the directory stay as they were.
   */
  method Extract(staged: TextDirectory, rows: seq<string>) returns (dir: TextDirectory)
    ensures dir.Keys == staged.Keys + ExtractedNames(|rows|)
    ensures forall i :: 0 <= i < |rows| ==> dir[ExtractedName(i)] == rows[i]
    ensures forall name :: name in staged && name !in ExtractedNames(|rows|) ==> dir[name] == staged[name]
    ensures staged == map[] ==> |dir| == |rows|
  {
    dir := staged;
    for i := 0 to |rows|
      invariant WroteRows(staged, rows, i, dir)
    {
      WroteRowsStep(staged, rows, i, dir);
      dir := dir[ExtractedName(i) := rows[i]];
    }
    if staged == map[] {
      ExtractedNamesCount(|rows|);
      assert dir.Keys == ExtractedNames(|rows|);
    }
  }

  /**
   * `dir` is `staged` after the entries in `done` were visited: each text
   * entry among them has `record` of its contents stored under its output
   * name, every other output entry is as it was.
   */
  ghost predicate WroteRecords<R>(extracted: TextDirectory, record: string -> R, staged: map<string, R>,
                                  done: set<string>, dir: map<string, R>)
    requires done <= extracted.Keys
  {
    && dir.Keys == staged.Keys + TransformedNames(TextEntries(done))
    && (forall name :: name in done && IsTextEntry(name) ==> dir[TransformedName(name)] == record(extracted[name]))
    && (forall out :: out in staged && out !in TransformedNames(TextEntries(done)) ==> dir[out] == staged[out])
  }

  lemma WroteRecordsSkip<R>(extracted: TextDirectory, record: string -> R, staged: map<string, R>,
                            done: set<string>, dir: map<string, R>, name: string)
    requires done <= extracted.Keys && name in extracted && !IsTextEntry(name)
    requires WroteRecords(extracted, record, staged, done, dir)
    ensures WroteRecords(extracted, record, staged, done + {name}, dir)
  {
    assert TextEntries(done + {name}) == TextEntries(done);
  }

  lemma WroteRecordsStep<R>(extracted: TextDirectory, record: string -> R, staged: map<string, R>,
                            done: set<string>, dir: map<string, R>, name: string)
    requires done <= extracted.Keys && name in extracted && name !in done && IsTextEntry(name)
    requires WroteRecords(extracted, record, staged, done, dir)
    ensures WroteRecords(extracted, record, staged, done + {name},
                         dir[TransformedName(name) := record(extracted[name])])
  {
    var out := TransformedName(name);
    assert TextEntries(done + {name}) == TextEntries(done) + {name};
    assert TransformedNames(TextEntries(done + {name})) == TransformedNames(TextEntries(done)) + {out};
    forall other | other in done && IsTextEntry(other) ensures TransformedName(other) != out {
      TransformedNameInjective(other, name);
    }
  }

  /** What the transform step stores for an entry with text `text`: its cleaned record, projected. */
  function RecordOf<V>(clean: string -> Cleaned<V>): string -> Record<V> {
    (text: string) => Projected(clean(text))
  }

  /**
   * The transform step's loop over its input directory: every entry whose
   * name ends in `.txt` is cleaned by `clean`, projected through the schema
   * and stored as `transformed_<name>.json`; other entries are skipped, and
   * output entries of other names stay as they were.
   */
  method TransformStaged<V>(extracted: TextDirectory, clean: string -> Cleaned<V>, staged: RecordDirectory<V>)
    returns (dir: RecordDirectory<V>)
    ensures WroteRecords(extracted, RecordOf(clean), staged, extracted.Keys, dir)
  {
    dir := staged;
    var remaining := extracted.Keys;
    while remaining != {}
      invariant remaining <= extracted.Keys
      invariant WroteRecords(extracted, RecordOf(clean), staged, extracted.Keys - remaining, dir)
      decreases remaining
    {
      var name :| name in remaining;
      ghost var done := extracted.Keys - remaining;
      if IsTextEntry(name) {
        var transformed := Transform(clean(extracted[name]));
        assert transformed == RecordOf(clean)(extracted[name]);
        WroteRecordsStep(extracted, RecordOf(clean), staged, done, dir, name);
        dir := dir[TransformedName(name) := transformed];
      } else {
        WroteRecordsSkip(extracted, RecordOf(clean), staged, done, dir, name);
      }
      remaining := remaining - {name};
      assert extracted.Keys - remaining == done + {name};
    }
    assert extracted.Keys - remaining == extracted.Keys;
  }

  /** Starting from an empty output directory, the transform step writes exactly the output names of the text entries. */
  lemma WroteRecordsFromEmpty<R>(extracted: TextDirectory, record: string -> R, dir: map<string, R>)
    requires WroteRecords(extracted, record, map[], extracted.Keys, dir)
    ensures dir.Keys == TransformedNames(TextEntries(extracted.Keys))
  {
  }

  /**
   * Both steps back to back, each starting from an empty directory: one
   * output file per source row, named after that row's staging file.
   */
  method Pipeline<V>(rows: seq<string>, clean: string -> Cleaned<V>) returns (out: RecordDirectory<V>)
    ensures |out| == |rows|
    ensures forall i :: 0 <= i < |rows| ==> TransformedName(ExtractedName(i)) in out
  {
    var extracted := Extract(map[], rows);
    assert extracted.Keys == ExtractedNames(|rows|);
    out := TransformStaged(extracted, clean, map[]);
    WroteRecordsFromEmpty(extracted, RecordOf(clean), out);
    PipelineCount(|rows|);
  }
}
