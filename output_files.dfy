/**
 * The output directory of `FetchDataService`: one `<year>.json` file per group and the
 * index `years.json`.  A directory is a map from file name to the text the file holds.
 */
module OutputFiles {
  import opened Base

  const JsonSuffix := ".json"
  const YearsFile := "years.json"

  /** The output file of the group with key `year`. */
  function FileName(year: string): string {
    year + JsonSuffix
  }

  /** The year an output file name belongs to, if it is a yearly file name. */
  function YearOfFileName(name: string): Option<string> {
    if |name| >= 5 && name[|name| - 5..] == JsonSuffix then Some(name[..|name| - 5]) else None
  }

  /** File names and years correspond one to one. */
  lemma FileNameRoundTrip(year: string, name: string)
    ensures YearOfFileName(FileName(year)) == Some(year)
    ensures YearOfFileName(name) == Some(year) ==> FileName(year) == name
  {
    if YearOfFileName(name) == Some(year) {
      assert name == name[..|name| - 5] + name[|name| - 5..];
    }
  }

  lemma FileNameInjective()
    ensures forall a, b :: FileName(a) == FileName(b) ==> a == b
  {
    forall a, b | FileName(a) == FileName(b) ensures a == b {
      FileNameRoundTrip(a, FileName(b));
    }
  }

  /** The index shares its name with the file of the key "years". */
  lemma YearsFileIsAYearlyName()
    ensures FileName("years") == YearsFile
    ensures forall y :: FileName(y) == YearsFile <==> y == "years"
  {
    FileNameInjective();
  }

  /** The files of the keys in `keys`, each holding its key's text from `texts`. */
  function FilesFor(texts: map<string, string>, keys: set<string>): map<string, string>
    requires keys <= texts.Keys
  {
    FileNameInjective();
    map y | y in keys :: FileName(y) := texts[y]
  }

  /** The files of all keys: one per key, named after it and holding its text, and no other. */
  lemma FilesForAll(texts: map<string, string>)
    ensures forall y :: y in texts ==> FileName(y) in FilesFor(texts, texts.Keys) && FilesFor(texts, texts.Keys)[FileName(y)] == texts[y]
    ensures forall n :: n in FilesFor(texts, texts.Keys) ==> exists y :: y in texts && n == FileName(y)
  {
    FileNameInjective();
  }

  /** No key, no file. */
  lemma FilesForNone(before: map<string, string>, texts: map<string, string>)
    ensures before + FilesFor(texts, {}) == before
  {
  }

  /** The files of one more key: those of the others, and the new key's file. */
  lemma FilesForInsert(texts: map<string, string>, keys: set<string>, year: string)
    requires keys <= texts.Keys && year in texts
    ensures FilesFor(texts, keys + {year}) == FilesFor(texts, keys)[FileName(year) := texts[year]]
  {
    FileNameInjective();
    var small := FilesFor(texts, keys);
    var large := FilesFor(texts, keys + {year});
    forall n | n in large ensures n in small || n == FileName(year) {
      var y :| y in keys + {year} && n == FileName(y);
    }
  }

  /** Writing the file of one more key extends the files written so far by that file. */
  lemma FilesForAdd(before: map<string, string>, texts: map<string, string>, keys: set<string>, year: string)
    requires keys <= texts.Keys && year in texts
    ensures (before + FilesFor(texts, keys))[FileName(year) := texts[year]] == before + FilesFor(texts, keys + {year})
  {
    FilesForInsert(texts, keys, year);
    UpdateUnion(before, FilesFor(texts, keys), FileName(year), texts[year]);
  }

  /** Updating a union updates its right-hand side. */
  lemma UpdateUnion(a: map<string, string>, b: map<string, string>, k: string, v: string)
    ensures (a + b)[k := v] == a + b[k := v]
  {
  }

  /** The files of some of the keys are among the files of all keys, with the same text. */
  lemma FilesForWithin(texts: map<string, string>, keys: set<string>)
    requires keys <= texts.Keys
    ensures forall n :: n in FilesFor(texts, keys) ==>
      n in FilesFor(texts, texts.Keys) && FilesFor(texts, texts.Keys)[n] == FilesFor(texts, keys)[n]
  {
    FileNameInjective();
  }
}
