/** `src/utils.py`: digit extraction and the skip-if-exists CSV export. */
module Utils {
  import opened PyText

  /** `re.sub(r"\D", "", s)`: the ASCII digits of `s`, in order. */
  function StripNonDigits(s: string): string {
    Keep(s, IsAsciiDigit)
  }

  /** `regex_get_num_from_str`: `re.sub(r"\D", "", s).replace(",", "")`. The result holds
      only digits, is a subsequence of `s`, and holds every digit of `s` as often as `s`
      does; so it is exactly the digits of `s` in their order. */
  function NumFromStr(s: string): (r: string)
    ensures AllDigits(r)
    ensures IsSubsequence(r, s)
    ensures forall c :: multiset(r)[c] == if IsAsciiDigit(c) then multiset(s)[c] else 0
  {
    CommaReplaceIsNoOp(s);
    KeepIsSubsequence(s, IsAsciiDigit);
    forall c
      ensures multiset(StripNonDigits(s))[c] == if IsAsciiDigit(c) then multiset(s)[c] else 0
    {
      KeepCounts(s, IsAsciiDigit, c);
    }
    Replace(StripNonDigits(s), ",", "")
  }

  /** The trailing `.replace(",", "")` never changes anything: the `\D` substitution has
      already removed every comma. */
  lemma CommaReplaceIsNoOp(s: string)
    ensures Replace(StripNonDigits(s), ",", "") == StripNonDigits(s)
  {
    var d := StripNonDigits(s);
    assert ',' !in d;
    ContainsChar(d, ',');
    ReplaceAbsent(d, ",", "");
  }

  /** Extracting digits twice is extracting them once. */
  lemma NumFromStrIdempotent(s: string)
    ensures NumFromStr(NumFromStr(s)) == NumFromStr(s)
  {
    var d := NumFromStr(s);
    KeepAll(d, IsAsciiDigit);
    CommaReplaceIsNoOp(d);
  }

  /** The result is empty exactly when `s` has no digit, `""` included; it is then the
      empty string, never a numeric null. */
  lemma NumFromStrEmptyIff(s: string)
    ensures NumFromStr(s) == "" <==> forall i :: 0 <= i < |s| ==> !IsAsciiDigit(s[i])
  {
    var r := NumFromStr(s);
    if r == "" {
      forall i | 0 <= i < |s|
        ensures !IsAsciiDigit(s[i])
      {
        assert s[i] in multiset(s);
        assert multiset(r)[s[i]] == 0;
      }
    } else {
      assert r[0] in multiset(r);
      assert multiset(s)[r[0]] > 0;
      var i :| 0 <= i < |s| && s[i] == r[0];
      assert IsAsciiDigit(s[i]);
    }
  }

  lemma DigitsOfSample()
    ensures StripNonDigits("1,234" + " reviews") == "1234"
  {
    KeepAppend("1,234", " reviews", IsAsciiDigit);
    assert StripNonDigits("1,234") == "1234";
    assert StripNonDigits(" reviews") == "";
  }

  lemma NumFromStrExamples()
    ensures NumFromStr("1,234" + " reviews") == "1234"
    ensures NumFromStr("") == ""
  {
    DigitsOfSample();
    CommaReplaceIsNoOp("1,234" + " reviews");
  }

  // ---------------------------------------------------------------------------
  // export_to_csv

  /** The target of `export_to_csv`: `os.path.join(data_dir, f"{fname_no_ext}.csv")`.
      A relative name goes under `dataDir`, with a `/` between them unless `dataDir` is
      empty or already ends in one; an absolute name ignores `dataDir`. When the name has
      no `/`, the file lands directly in `dataDir` under that name. */
  function CsvPath(dataDir: string, fnameNoExt: string): (p: string)
    ensures (fnameNoExt == "" || fnameNoExt[0] != '/') && dataDir != "" && dataDir[|dataDir| - 1] != '/' ==>
      p == dataDir + "/" + fnameNoExt + ".csv"
    ensures (fnameNoExt == "" || fnameNoExt[0] != '/') && (dataDir == "" || dataDir[|dataDir| - 1] == '/') ==>
      p == dataDir + fnameNoExt + ".csv"
    ensures fnameNoExt != "" && fnameNoExt[0] == '/' ==> p == fnameNoExt + ".csv"
    ensures var b := fnameNoExt + ".csv"; |b| <= |p| && p[|p| - |b|..] == b
    ensures '/' !in fnameNoExt ==> Basename(p) == fnameNoExt + ".csv"
  {
    var b := fnameNoExt + ".csv";
    assert '/' !in ".csv";
    assert b[0] == if fnameNoExt == "" then '.' else fnameNoExt[0];
    assert dataDir + "/" + b == dataDir + "/" + fnameNoExt + ".csv";
    assert dataDir + b == dataDir + fnameNoExt + ".csv";
    JoinPath(dataDir, b)
  }

  /** `export_to_csv(df, data_dir, fname_no_ext)` over a file system that maps each
      existing path to its contents: the table is written only when the target path
      does not exist yet; an existing file is left as it was. */
  function ExportToCsv<T>(files: map<string, T>, table: T, dataDir: string, fnameNoExt: string): (r: map<string, T>)
    ensures r.Keys == files.Keys + {CsvPath(dataDir, fnameNoExt)}
    ensures CsvPath(dataDir, fnameNoExt) !in files ==> r[CsvPath(dataDir, fnameNoExt)] == table
    ensures forall p :: p in files ==> r[p] == files[p]
  {
    var path := CsvPath(dataDir, fnameNoExt);
    if path !in files then files[path := table] else files
  }

  /** A second export to the same path does nothing, whatever table it carries: two
      calls equal one, and the first table stays on disk. */
  lemma ExportTwiceIsOnce<T>(files: map<string, T>, t1: T, t2: T, dataDir: string, fnameNoExt: string)
    ensures var once := ExportToCsv(files, t1, dataDir, fnameNoExt);
            ExportToCsv(once, t2, dataDir, fnameNoExt) == once
  {
  }
}
