/** The CME daily-bulletin archive index (Active.Cache): which FTP file names
    are bulletin archives, the bulletin date encoded in such a name, and the
    date -> file index built over a directory listing. The listing itself is
    an input. */
module Cme {
  import opened Common

  const Prefix: string := "DailyBulletin_pdf_"
  const Suffix: string := ".zip"

  /** `\d`, restricted to the ASCII digits. */
  predicate IsDigit(c: char)
  {
    '0' <= c <= '9'
  }

  predicate AllDigits(s: string)
  {
    forall i :: 0 <= i < |s| ==> IsDigit(s[i])
  }

  /** A bulletin archive name: the prefix, one or more digits, ".zip". */
  predicate IsArchiveName(g: string)
  {
    && |g| > |Prefix| + |Suffix|
    && g[..|Prefix|] == Prefix
    && g[|g| - |Suffix|..] == Suffix
    && AllDigits(g[|Prefix|..|g| - |Suffix|])
  }

  /** if_valid_zip: `re.match('^DailyBulletin_pdf_\d+\.zip$', file)`. A `$`
      also matches just before a final newline, so one trailing "\n" is
      accepted. */
  predicate IfValidZip(f: string)
  {
    if |f| > 0 && f[|f| - 1] == '\n' then IsArchiveName(f[..|f| - 1]) else IsArchiveName(f)
  }

  /** `f` is the archive name with the digit run `digits`, possibly followed
      by one newline. */
  predicate NamesArchive(f: string, digits: string)
  {
    && |digits| > 0 && AllDigits(digits)
    && (f == Prefix + digits + Suffix || f == Prefix + digits + Suffix + "\n")
  }

  /** The names if_valid_zip accepts are exactly the prefix, a non-empty run
      of digits and ".zip", optionally followed by one newline. */
  lemma IfValidZipShape(f: string)
    ensures IfValidZip(f) <==> exists digits :: NamesArchive(f, digits)
  {
    if IfValidZip(f) {
      ValidZipHasDigits(f);
    }
    if exists digits :: NamesArchive(f, digits) {
      var digits :| NamesArchive(f, digits);
      ArchiveIsValidZip(f, digits);
    }
  }

  lemma ValidZipHasDigits(f: string)
    requires IfValidZip(f)
    ensures exists digits :: NamesArchive(f, digits)
  {
    if |f| > 0 && f[|f| - 1] == '\n' {
      var g := f[..|f| - 1];
      var digits := ArchiveDigits(g);
      assert f == g + "\n";
      assert NamesArchive(f, digits);
    } else {
      var digits := ArchiveDigits(f);
      assert NamesArchive(f, digits);
    }
  }

  /** The digit run of an archive name. */
  lemma ArchiveDigits(g: string) returns (digits: string)
    requires IsArchiveName(g)
    ensures |digits| > 0 && AllDigits(digits) && g == Prefix + digits + Suffix
  {
    digits := g[|Prefix|..|g| - |Suffix|];
    assert g == g[..|Prefix|] + g[|Prefix|..|g| - |Suffix|] + g[|g| - |Suffix|..];
  }

  lemma ArchiveIsValidZip(f: string, digits: string)
    requires NamesArchive(f, digits)
    ensures IfValidZip(f)
  {
    var g := Prefix + digits + Suffix;
    assert g[..|Prefix|] == Prefix;
    assert g[|g| - |Suffix|..] == Suffix;
    assert g[|Prefix|..|g| - |Suffix|] == digits;
    assert IsArchiveName(g);
    if f == g + "\n" {
      assert f[..|f| - 1] == g;
    } else {
      assert f[|f| - 1] == 'p';
    }
  }

  /** A proleptic Gregorian calendar date (datetime.date). */
  datatype CivilDate = CivilDate(year: int, month: int, day: int)

  predicate IsLeap(y: int)
  {
    y % 4 == 0 && (y % 100 != 0 || y % 400 == 0)
  }

  function DaysInMonth(y: int, m: int): (n: int)
    requires 1 <= m <= 12
    ensures 28 <= n <= 31
    ensures m == 2 ==> (n == 29 <==> IsLeap(y))
  {
    if m == 2 then (if IsLeap(y) then 29 else 28)
    else if m == 4 || m == 6 || m == 9 || m == 11 then 30
    else 31
  }

  /** What datetime.date accepts: year 1 to 9999, and a real day of a real
      month. */
  predicate ValidDate(d: CivilDate)
  {
    1 <= d.year <= 9999 && 1 <= d.month <= 12 && 1 <= d.day <= DaysInMonth(d.year, d.month)
  }

  function DigitValue(c: char): int
  {
    c as int - '0' as int
  }

  /** The decimal value of a string of digits. */
  function Value(s: string): (n: int)
    requires AllDigits(s)
    ensures 0 <= n < Pow10(|s|)
  {
    if s == [] then 0 else Value(s[..|s| - 1]) * 10 + DigitValue(s[|s| - 1])
  }

  function Pow10(w: nat): (p: int)
    ensures p >= 1
  {
    if w == 0 then 1 else 10 * Pow10(w - 1)
  }

  /** The eight characters YYYYMMDD that spell a valid date. */
  function Ymd(d: CivilDate): (s: string)
    requires ValidDate(d)
    ensures |s| == 8 && AllDigits(s)
  {
    Digits(d.year, 4) + Digits(d.month, 2) + Digits(d.day, 2)
  }

  /** `strptime(s, '%Y%m%d')` on an 8-character slice of an archive name. Such
      a slice is either 8 digits or holds the '.' of ".zip". %Y takes exactly
      four digits; %m and %d try their two-digit forms first, and a one-digit
      month or day leaves part of the 8 characters unconverted, which is an
      error. So the parse succeeds exactly on YYYYMMDD forming a valid date,
      and returns the date those digits spell (ParseYmdOfYmd is the other
      direction). */
  function ParseYmd(s: string): (r: Option<CivilDate>)
    ensures r.Some? ==> ValidDate(r.value) && s == Ymd(r.value)
  {
    if |s| == 8 && AllDigits(s) then
      var d := CivilDate(Value(s[..4]), Value(s[4..6]), Value(s[6..]));
      if ValidDate(d) then
        DigitsOfValue(s[..4]);
        DigitsOfValue(s[4..6]);
        DigitsOfValue(s[6..]);
        assert s == s[..4] + s[4..6] + s[6..];
        Some(d)
      else None
    else None
  }

  /** handle(file): None unless if_valid_zip; otherwise the date spelled by
      the 8 characters after the prefix, None when they spell no valid date. */
  function Handle(f: string): (r: Option<CivilDate>)
    ensures r.Some? ==> IfValidZip(f) && ValidDate(r.value)
    ensures r.Some? ==> |f| >= |Prefix| + 8 && f[|Prefix|..|Prefix| + 8] == Ymd(r.value)
  {
    if !IfValidZip(f) then None
    else
      var rest := f[|Prefix|..];
      var r := ParseYmd(if |rest| >= 8 then rest[..8] else rest);
      assert r.Some? ==> |rest| >= 8 && f[|Prefix|..|Prefix| + 8] == rest[..8];
      r
  }

  /** The converse of Handle's contract: a valid zip name whose 8 characters
      after the prefix spell a valid date handles to that date. */
  lemma HandleSpelledDate(f: string, d: CivilDate)
    requires IfValidZip(f) && ValidDate(d)
    requires |f| >= |Prefix| + 8 && f[|Prefix|..|Prefix| + 8] == Ymd(d)
    ensures Handle(f) == Some(d)
  {
    var rest := f[|Prefix|..];
    assert rest[..8] == f[|Prefix|..|Prefix| + 8];
    ParseYmdOfYmd(d);
  }

  /** Eight digits that are not a date, such as month 13, give no handle. */
  lemma MonthThirteenHasNoDate()
    ensures Handle(Prefix + "20201301" + Suffix) == None
  {
    var f := Prefix + "20201301" + Suffix;
    if Handle(f).Some? {
      var d := Handle(f).value;
      assert f[|Prefix|..|Prefix| + 8] == "20201301";
      assert Ymd(d)[4..6] == Digits(d.month, 2);
      DigitsValue(d.month, 2);
      assert false;
    }
  }

  /** Names with fewer than eight digits carry no date. */
  lemma ShortDigitsHaveNoDate(digits: string)
    requires 0 < |digits| < 8 && AllDigits(digits)
    ensures Handle(Prefix + digits + Suffix) == None
  {
    var f := Prefix + digits + Suffix;
    var rest := f[|Prefix|..];
    assert rest == digits + Suffix;
    assert rest[|digits|] == '.';
    if |rest| >= 8 {
      assert rest[..8][|digits|] == '.';
      assert !AllDigits(rest[..8]);
    }
  }

  /** `w` decimal digits of `n`, zero-padded. */
  function Digits(n: nat, w: nat): (s: string)
    ensures |s| == w && AllDigits(s)
  {
    if w == 0 then [] else Digits(n / 10, w - 1) + [('0' as int + n % 10) as char]
  }

  lemma {:induction false} DigitsValue(n: nat, w: nat)
    requires n < Pow10(w)
    ensures Value(Digits(n, w)) == n
  {
    if w > 0 {
      var s := Digits(n, w);
      assert s[..|s| - 1] == Digits(n / 10, w - 1);
      DigitsValue(n / 10, w - 1);
    }
  }

  /** Writing the value of a digit string back with as many digits gives the
      string back, leading zeros included. */
  lemma {:induction false} DigitsOfValue(x: string)
    requires AllDigits(x)
    ensures Digits(Value(x), |x|) == x
    decreases |x|
  {
    if x != [] {
      var init, c := x[..|x| - 1], x[|x| - 1];
      var v := Value(x);
      assert 0 <= DigitValue(c) <= 9;
      assert v == Value(init) * 10 + DigitValue(c);
      assert v / 10 == Value(init) && v % 10 == DigitValue(c);
      DigitsOfValue(init);
      assert x == init + [c];
    }
  }

  /** The archive name of the bulletin of date d, with `more` digits after
      the date. */
  function FileName(d: CivilDate, more: string): string
    requires ValidDate(d) && AllDigits(more)
  {
    Prefix + Ymd(d) + more + Suffix
  }

  /** handle recovers the date from a bulletin archive name, whatever digits
      follow the first eight. */
  lemma HandleFileName(d: CivilDate, more: string)
    requires ValidDate(d) && AllDigits(more)
    ensures Handle(FileName(d, more)) == Some(d)
  {
    var ymd := Ymd(d);
    var digits := ymd + more;
    var f := FileName(d, more);
    assert f == Prefix + digits + Suffix;
    assert AllDigits(digits) by {
      assert forall i :: 0 <= i < |ymd| ==> digits[i] == ymd[i];
      assert forall i :: |ymd| <= i < |digits| ==> digits[i] == more[i - |ymd|];
    }
    IfValidZipShape(f);
    assert NamesArchive(f, digits);
    assert f[|Prefix|..|Prefix| + 8] == ymd;
    HandleSpelledDate(f, d);
  }

  /** The eight digits of a valid date parse back to that date. */
  lemma ParseYmdOfYmd(d: CivilDate)
    requires ValidDate(d)
    ensures ParseYmd(Ymd(d)) == Some(d)
  {
    var ymd := Ymd(d);
    assert ymd[..4] == Digits(d.year, 4);
    assert ymd[4..6] == Digits(d.month, 2);
    assert ymd[6..] == Digits(d.day, 2);
    DigitsValue(d.year, 4);
    DigitsValue(d.month, 2);
    DigitsValue(d.day, 2);
  }

  /** The dict comprehension `{key(f): f for f in files if key(f) is not
      None}`: when two files give the same key the later one stays. */
  function Index<K>(files: seq<string>, key: string -> Option<K>): map<K, string>
  {
    if files == [] then map[]
    else
      var m := Index(files[..|files| - 1], key);
      match key(files[|files| - 1])
      case None => m
      case Some(k) => m[k := files[|files| - 1]]
  }

  lemma {:induction false} IndexKeys<K>(files: seq<string>, key: string -> Option<K>)
    ensures forall k :: k in Index(files, key) <==> exists i :: 0 <= i < |files| && key(files[i]) == Some(k)
    ensures forall k :: k in Index(files, key) ==> key(Index(files, key)[k]) == Some(k) && Index(files, key)[k] in files
    decreases |files|
  {
    if files != [] {
      var init := files[..|files| - 1];
      IndexKeys(init, key);
      assert forall i :: 0 <= i < |init| ==> init[i] == files[i];
    }
  }

  lemma {:induction false} IndexKeepsLast<K>(files: seq<string>, key: string -> Option<K>, i: nat)
    requires i < |files| && key(files[i]).Some?
    requires forall j :: i < j < |files| ==> key(files[j]) != key(files[i])
    ensures key(files[i]).value in Index(files, key) && Index(files, key)[key(files[i]).value] == files[i]
    decreases |files|
  {
    var init := files[..|files| - 1];
    if i < |files| - 1 {
      assert forall j :: i < j < |init| ==> init[j] == files[j];
      IndexKeepsLast(init, key, i);
    }
  }

  /** available_dates_cache over the listing `files`, keyed by handle. */
  function Cache(files: seq<string>): map<CivilDate, string>
  {
    Index(files, Handle)
  }

  /** The cache indexes exactly the dates of the listing's archives, each
      to a listed archive of that date. */
  lemma CacheIndex(files: seq<string>)
    ensures forall d :: d in Cache(files) <==> exists i :: 0 <= i < |files| && Handle(files[i]) == Some(d)
    ensures forall d :: d in Cache(files) ==> Handle(Cache(files)[d]) == Some(d) && Cache(files)[d] in files
  {
    IndexKeys(files, Handle);
  }

  /** The later file wins: the file indexed for a date is the last one in the
      listing that gives that date. */
  lemma CacheKeepsLast(files: seq<string>, i: nat)
    requires i < |files| && Handle(files[i]).Some?
    requires forall j :: i < j < |files| ==> Handle(files[j]) != Handle(files[i])
    ensures Handle(files[i]).value in Cache(files) && Cache(files)[Handle(files[i]).value] == files[i]
  {
    IndexKeepsLast(files, Handle, i);
  }

  /** file(handle): the archive indexed for a date, None for a date with no
      archive. */
  function File(files: seq<string>, d: CivilDate): (r: Option<string>)
    ensures r.Some? <==> exists i :: 0 <= i < |files| && Handle(files[i]) == Some(d)
    ensures r.Some? ==> r.value in files && Handle(r.value) == Some(d)
  {
    CacheIndex(files);
    var cache := Cache(files);
    if d in cache then Some(cache[d]) else None
  }

  /** available_handles(): the dates of the listing's archives. */
  function AvailableHandles(files: seq<string>): (dates: set<CivilDate>)
    ensures forall d :: d in dates <==> exists i :: 0 <= i < |files| && Handle(files[i]) == Some(d)
    ensures forall d :: d in dates ==> ValidDate(d)
  {
    CacheIndex(files);
    Cache(files).Keys
  }

  /** delete(date): the archive to evict from the local FTP cache, or None
      (nothing is removed) when the date has no archive. */
  function Delete(files: seq<string>, d: CivilDate): (victim: Option<string>)
    ensures victim.Some? <==> d in AvailableHandles(files)
    ensures victim.Some? ==> victim.value in files && Handle(victim.value) == Some(d)
  {
    CacheIndex(files);
    var cache := Cache(files);
    if d in cache then Some(cache[d]) else None
  }
}
