/**
 * Which directory entries `convertAllJsonFilesToCsv` converts, and the name
 * of the CSV file each one is written to: entries whose extension, lower-cased,
 * is `.json`; output name `path.basename(entry, '.json') + '.csv'`.
 *
 * `path.extname` and `path.basename` are modelled for directory entry names,
 * which never contain a `/`.
 */
module FileNames {
  import opened Records

  /** A name as a directory listing returns it: no path separator. */
  predicate EntryName(name: string)
  {
    '/' !in name
  }

  /** The position of the last `.` in `name`, if any. */
  function LastDot(name: string): (dot: Option<nat>)
    ensures dot.Some? ==> dot.value < |name| && name[dot.value] == '.' && '.' !in name[dot.value + 1..]
    ensures dot.None? ==> '.' !in name
  {
    if name == [] then None
    else if name[|name| - 1] == '.' then Some(|name| - 1)
    else
      var dot := LastDot(name[..|name| - 1]);
      assert name == name[..|name| - 1] + [name[|name| - 1]];
      dot
  }

  /**
   * `path.extname`: from the last `.` to the end, or empty when there is no
   * `.`, when the only `.` that counts starts the name (a dot-file), or when
   * the name is `..`.
   */
  function ExtName(name: string): (ext: string)
    requires EntryName(name)
    ensures ext == [] || (ext[0] == '.' && '.' !in ext[1..] && 0 < |name| - |ext| && name[|name| - |ext|..] == ext)
    ensures ext == [] <==> (name == ".." || forall k :: 0 < k < |name| ==> name[k] != '.')
  {
    match LastDot(name)
    case None => ""
    case Some(dot) =>
      if dot == 0 then
        assert forall k :: 0 < k < |name| ==> name[k] == name[dot + 1..][k - 1];
        ""
      else if name == ".." then ""
      else name[dot..]
  }

  /** `toLowerCase` on the ASCII letters. */
  function LowerChar(c: char): char
  {
    if 'A' <= c <= 'Z' then (c as int - 'A' as int + 'a' as int) as char else c
  }

  function ToLower(s: string): string
  {
    seq(|s|, i requires 0 <= i < |s| => LowerChar(s[i]))
  }

  /**
   * The filter of the directory listing: the lower-cased extension is
   * `.json`. A listing never holds a name with a `/`; such a name is not kept.
   */
  predicate IsJsonFile(name: string)
  {
    EntryName(name) && ToLower(ExtName(name)) == ".json"
  }

  /**
   * `path.basename(name, suffix)` of an entry name: the name without a
   * trailing, case-sensitive `suffix`; empty when the name is the suffix.
   */
  function BaseName(name: string, suffix: string): (base: string)
    requires EntryName(name)
    ensures 0 < |suffix| <= |name| && name[|name| - |suffix|..] == suffix ==> base + suffix == name
    ensures !(0 < |suffix| <= |name| && name[|name| - |suffix|..] == suffix) ==> base == name
  {
    if 0 < |suffix| <= |name| then
      if suffix == name then ""
      else if name[|name| - |suffix|..] == suffix then
        assert name == name[..|name| - |suffix|] + name[|name| - |suffix|..];
        name[..|name| - |suffix|]
      else name
    else name
  }

  /** The output name of a converted entry. */
  function CsvFileName(name: string): (csv: string)
    requires EntryName(name)
    ensures |name| >= 5 && name[|name| - 5..] == ".json" ==> csv == name[..|name| - 5] + ".csv"
    ensures !(|name| >= 5 && name[|name| - 5..] == ".json") ==> csv == name + ".csv"
  {
    BaseName(name, ".json") + ".csv"
  }

  /** `files.filter(...)`: the entries to convert, in listing order. */
  function JsonFiles(entries: seq<string>): (kept: seq<string>)
    ensures forall i :: 0 <= i < |kept| ==> EntryName(kept[i])
    ensures |kept| <= |entries|
  {
    if entries == [] then []
    else
      var n := |entries| - 1;
      JsonFiles(entries[..n]) + (if IsJsonFile(entries[n]) then [entries[n]] else [])
  }

  /** One conversion: the entry read and the CSV file written. */
  datatype Job = Job(jsonFile: string, csvFile: string)

  /**
   * The loop of `convertAllJsonFilesToCsv` over the kept entries, recording
   * for each the file it reads and the file it writes.
   */
  method ConversionJobs(entries: seq<string>) returns (jobs: seq<Job>)
    ensures |jobs| == |JsonFiles(entries)|
    ensures forall i :: 0 <= i < |jobs| ==>
      jobs[i].jsonFile == JsonFiles(entries)[i] && jobs[i].csvFile == CsvFileName(jobs[i].jsonFile)
    ensures forall i :: 0 <= i < |jobs| ==> jobs[i].jsonFile in entries && IsJsonFile(jobs[i].jsonFile)
  {
    var jsonFiles := JsonFiles(entries);
    jobs := [];
    for k := 0 to |jsonFiles|
      invariant |jobs| == k
      invariant forall i :: 0 <= i < k ==>
        jobs[i].jsonFile == jsonFiles[i] && jobs[i].csvFile == CsvFileName(jsonFiles[i])
    {
      jobs := jobs + [Job(jsonFiles[k], CsvFileName(jsonFiles[k]))];
    }
    JsonFilesMembers(entries);
    forall i | 0 <= i < |jobs|
      ensures jobs[i].jsonFile in entries && IsJsonFile(jobs[i].jsonFile)
    {
      assert jsonFiles[i] in jsonFiles;
    }
  }

  // ---------------------------------------------------------------------------
  // Lemmas

  /**
   * An entry is converted exactly when it is longer than five characters and
   * its last five, lower-cased, are `.json`.
   */
  lemma JsonFileIff(name: string)
    requires EntryName(name)
    ensures IsJsonFile(name) <==> |name| > 5 && ToLower(name[|name| - 5..]) == ".json"
  {
    var ext := ExtName(name);
    if IsJsonFile(name) {
      assert |ext| == 5;
    }
    if |name| > 5 && ToLower(name[|name| - 5..]) == ".json" {
      var n := |name| - 5;
      var tail := name[n..];
      assert ToLower(tail)[0] == '.';
      assert tail[0] == '.';
      forall k | 1 <= k < 5
        ensures tail[k] != '.'
      {
        assert LowerChar(tail[k]) == ToLower(tail)[k] == ".json"[k];
      }
      assert '.' !in name[n + 1..] by {
        assert name[n + 1..] == tail[1..];
      }
      assert LastDot(name).Some? by {
        assert name[n] == '.';
      }
      assert LastDot(name).value == n;
    }
  }

  /** The output name of a converted entry: a trailing lower-case `.json` replaced by `.csv`, otherwise `.csv` appended. */
  lemma CsvNameOfJsonFile(name: string)
    requires EntryName(name) && IsJsonFile(name)
    ensures |name| > 5
    ensures CsvFileName(name) ==
      (if name[|name| - 5..] == ".json" then name[..|name| - 5] else name) + ".csv"
  {
    JsonFileIff(name);
  }

  /** Round trip: the entry `stem.json` is converted, and written to `stem.csv`. */
  lemma CsvNameRoundTrip(stem: string)
    requires EntryName(stem) && stem != []
    ensures EntryName(stem + ".json") && IsJsonFile(stem + ".json")
    ensures CsvFileName(stem + ".json") == stem + ".csv"
  {
    var name := stem + ".json";
    assert name[|name| - 5..] == ".json";
    assert name[..|name| - 5] == stem;
    assert ToLower(".json") == ".json";
    JsonFileIff(name);
  }

  /** Two converted entries that both end in a lower-case `.json` are written to different files. */
  lemma CsvNameInjective(a: string, b: string)
    requires EntryName(a) && EntryName(b) && IsJsonFile(a) && IsJsonFile(b)
    requires a[|a| - |".json"|..] == ".json" && b[|b| - |".json"|..] == ".json"
    requires CsvFileName(a) == CsvFileName(b)
    ensures a == b
  {
    CsvNameOfJsonFile(a);
    CsvNameOfJsonFile(b);
    var sa, sb := a[..|a| - 5], b[..|b| - 5];
    assert sa + ".csv" == sb + ".csv";
    assert |sa| == |sb|;
    assert sa == (sa + ".csv")[..|sa|];
    assert sb == (sb + ".csv")[..|sb|];
    assert a == sa + ".json" && b == sb + ".json";
  }

  /**
   * The extension test ignores case but the suffix removal does not: the
   * entry `stem.JSON` is converted, and written to `stem.JSON.csv`.
   */
  lemma UpperCaseExtension(stem: string)
    requires EntryName(stem) && stem != []
    ensures EntryName(stem + ".JSON") && IsJsonFile(stem + ".JSON")
    ensures CsvFileName(stem + ".JSON") == stem + ".JSON.csv"
  {
    var name := stem + ".JSON";
    assert name[|name| - 5..] == ".JSON";
    assert ToLower(".JSON") == ".json";
    JsonFileIff(name);
    assert CsvFileName(name) == name + ".csv" by {
      assert name[|name| - 5..][1] != ".json"[1];
    }
    assert name + ".csv" == stem + ".JSON.csv";
  }

  /** A dot-file named `.json` and an entry `a.txt` are not converted. */
  lemma NotConverted()
    ensures !IsJsonFile(".json") && !IsJsonFile("a.txt")
  {
    JsonFileIff(".json");
    JsonFileIff("a.txt");
  }

  /**
   * Two different entries can be written to the same file: `stem.JSON` and
   * `stem.JSON.json` are both converted, and both to `stem.JSON.csv`.
   */
  lemma CsvNameCollision(stem: string)
    requires EntryName(stem) && stem != []
    ensures EntryName(stem + ".JSON") && EntryName(stem + ".JSON.json")
    ensures stem + ".JSON" != stem + ".JSON.json"
    ensures IsJsonFile(stem + ".JSON") && IsJsonFile(stem + ".JSON.json")
    ensures CsvFileName(stem + ".JSON") == CsvFileName(stem + ".JSON.json") == stem + ".JSON.csv"
  {
    var upper := stem + ".JSON";
    var twice := upper + ".json";
    assert twice == stem + ".JSON.json" && upper + ".csv" == stem + ".JSON.csv";
    assert EntryName(upper) && IsJsonFile(upper) && CsvFileName(upper) == stem + ".JSON.csv" by {
      UpperCaseExtension(stem);
    }
    assert EntryName(twice) && IsJsonFile(twice) && CsvFileName(twice) == upper + ".csv" by {
      CsvNameRoundTrip(upper);
    }
    assert |upper| != |twice|;
  }

  /** The kept entries are exactly the listed entries whose lower-cased extension is `.json`. */
  lemma {:induction false} JsonFilesMembers(entries: seq<string>)
    ensures forall e :: e in JsonFiles(entries) <==> e in entries && IsJsonFile(e)
  {
    if entries != [] {
      var n := |entries| - 1;
      assert entries == entries[..n] + [entries[n]];
      JsonFilesMembers(entries[..n]);
    }
  }

  /** Filtering a listing with one more entry keeps that entry at the end exactly when it is a JSON file. */
  lemma JsonFilesSnoc(entries: seq<string>, entry: string)
    ensures JsonFiles(entries + [entry]) == JsonFiles(entries) + if IsJsonFile(entry) then [entry] else []
  {
    var all := entries + [entry];
    assert all[..|all| - 1] == entries;
    assert all[|all| - 1] == entry;
  }

  /**
   * The filter keeps listing order and multiplicity: filtering a listing made
   * of two parts gives the kept entries of the first part followed by those of
   * the second.
   */
  lemma {:induction false} JsonFilesConcat(first: seq<string>, second: seq<string>)
    ensures JsonFiles(first + second) == JsonFiles(first) + JsonFiles(second)
  {
    if second == [] {
      assert first + second == first;
    } else {
      var n := |second| - 1;
      var init, last := second[..n], second[n];
      assert second == init + [last];
      var kept: seq<string> := if IsJsonFile(last) then [last] else [];
      calc {
        JsonFiles(first + second);
        { assert first + second == (first + init) + [last]; JsonFilesSnoc(first + init, last); }
        JsonFiles(first + init) + kept;
        { JsonFilesConcat(first, init); }
        (JsonFiles(first) + JsonFiles(init)) + kept;
        JsonFiles(first) + (JsonFiles(init) + kept);
        { JsonFilesSnoc(init, last); }
        JsonFiles(first) + JsonFiles(second);
      }
    }
  }
}
