// The naming, numbering and ordering rules of the TOML collection store
// (src/storage/file_storage.rs). Directories are given as in-memory
// listings: each entry is a name with its file/directory flags, in the
// order `read_dir` yields them. Reading, writing and parsing the files are
// not part of this model.

module FileStorage {
  import opened Wrappers
  import opened Strings
  import opened Sorting
  import opened Types

  /** `u32::MAX`. */
  const U32Max: nat := 0xFFFF_FFFF

  // ---------------------------------------------------------------------
  // Names

  /** The chars `sanitize_filename` keeps: letters, digits, '_', '-' and ' '. */
  predicate SafeChar(c: char)
  {
    IsAlphanumeric(c) || c == '_' || c == '-' || c == ' '
  }

  function SanitizeChar(c: char): char
  {
    if SafeChar(c) then c else '_'
  }

  /** `sanitize_filename`: every char that is not safe becomes '_'. */
  function SanitizeFilename(name: string): (r: string)
    ensures |r| == |name|
    ensures forall i :: 0 <= i < |r| ==> SafeChar(r[i])
    ensures forall i :: 0 <= i < |r| ==> (r[i] == name[i] <==> SafeChar(name[i]) || name[i] == '_')
  {
    if |name| == 0 then []
    else [SanitizeChar(name[0])] + SanitizeFilename(name[1..])
  }

  /** Sanitizing twice is sanitizing once, and a name is left as it is exactly when all its chars are safe. */
  lemma SanitizeIdempotent(name: string)
    ensures SanitizeFilename(SanitizeFilename(name)) == SanitizeFilename(name)
    ensures SanitizeFilename(name) == name <==> forall i :: 0 <= i < |name| ==> SafeChar(name[i])
  {
    var once := SanitizeFilename(name);
    assert forall i :: 0 <= i < |once| ==> SanitizeFilename(once)[i] == once[i];
    if once == name {
      assert forall i :: 0 <= i < |name| ==> SafeChar(name[i]) by {
        forall i | 0 <= i < |name|
          ensures SafeChar(name[i])
        {
          assert SafeChar(once[i]);
        }
      }
    }
  }

  /** The char offset of the first `c` in `s`, as `str::find` with a char pattern. */
  function FindChar(s: string, c: char): (r: Option<nat>)
    ensures r.Some? ==> r.value < |s| && s[r.value] == c && forall j :: 0 <= j < r.value ==> s[j] != c
    ensures r.None? ==> forall j :: 0 <= j < |s| ==> s[j] != c
  {
    if |s| == 0 then None
    else if s[0] == c then Some(0)
    else match FindChar(s[1..], c)
      case None => None
      case Some(j) => Some(j + 1)
  }

  predicate AllDigits(s: string)
  {
    forall i :: 0 <= i < |s| ==> IsAsciiDigit(s[i])
  }

  /** The text before the first '_' is exactly four ASCII digits (the byte length of such a prefix is its char count). */
  predicate HasNumericPrefix(name: string)
  {
    |name| >= 5 && name[4] == '_' && AllDigits(name[..4])
  }

  /** `extract_numeric_prefix`: the value of a "dddd_" prefix. */
  function ExtractNumericPrefix(name: string): (r: Option<nat>)
    ensures r.Some? <==> HasNumericPrefix(name)
    ensures r.Some? ==> r.value == DigitsValue(name[..4]) && r.value < 10000
  {
    match FindChar(name, '_')
    case None => None
    case Some(p) =>
      if p == 4 && AllDigits(name[..p]) then
        DigitsBelow(name[..4]);
        Some(DigitsValue(name[..4]))
      else
        assert HasNumericPrefix(name) ==> name[p] == '_' && (p < 4 ==> !IsAsciiDigit(name[..4][p]));
        None
  }

  /** `remove_numeric_prefix`: the name after its "dddd_" prefix, or the whole name when it has none. */
  function RemoveNumericPrefix(name: string): (r: string)
    ensures HasNumericPrefix(name) ==> name == name[..5] + r
    ensures !HasNumericPrefix(name) ==> r == name
  {
    if ExtractNumericPrefix(name).Some? then name[5..] else name
  }

  /** A string of `k` zeros. */
  function Zeros(k: nat): (r: string)
    ensures |r| == k && AllDigits(r)
  {
    if k == 0 then [] else Zeros(k - 1) + ['0']
  }

  /** `format!("{:0w$}", n)`: the decimal digits of `n`, padded on the left with zeros to at least `width` chars. */
  function ZeroPadded(n: nat, width: nat): (r: string)
    ensures |r| == if |NatToString(n)| >= width then |NatToString(n)| else width
    ensures AllDigits(r) && DigitsValue(r) == n
  {
    var digits := NatToString(n);
    var pad: nat := if |digits| >= width then 0 else width - |digits|;
    LeadingZeros(pad, digits);
    NatToStringValue(n);
    Zeros(pad) + digits
  }

  lemma {:induction false} LeadingZeros(k: nat, s: string)
    requires AllDigits(s)
    ensures AllDigits(Zeros(k) + s) && DigitsValue(Zeros(k) + s) == DigitsValue(s)
    decreases |s|
  {
    var z := Zeros(k) + s;
    if |s| == 0 {
      assert z == Zeros(k);
      ZerosValue(k);
    } else {
      assert z[..|z| - 1] == Zeros(k) + s[..|s| - 1];
      LeadingZeros(k, s[..|s| - 1]);
    }
  }

  lemma {:induction false} ZerosValue(k: nat)
    ensures DigitsValue(Zeros(k)) == 0
  {
    if k > 0 {
      assert Zeros(k)[..k - 1] == Zeros(k - 1);
      ZerosValue(k - 1);
    }
  }

  /** Four digits are worth less than 10000. */
  lemma DigitsBelow(s: string)
    requires |s| == 4 && AllDigits(s)
    ensures DigitsValue(s) < 10000
  {
    DigitsValueBound(s);
    assert Pow10(4) == 10000;
  }

  /** `k` digits are worth less than `10^k`. */
  lemma {:induction false} DigitsValueBound(s: string)
    requires AllDigits(s)
    ensures DigitsValue(s) < Pow10(|s|)
    decreases |s|
  {
    if |s| > 0 {
      DigitsValueBound(s[..|s| - 1]);
    }
  }

  /** A number below `10^w` has at most `w` digits. */
  lemma ShortRendering(n: nat, w: nat)
    requires w >= 1 && n < Pow10(w)
    ensures |NatToString(n)| <= w
  {
    var d := |NatToString(n)|;
    NatToStringLength(n, d);
    if d > w {
      PowMonotone(w, d - 1);
    }
  }

  /** A name built as `format!("{:04}_{}", n, rest)` has its number and its rest recovered by the two prefix helpers. */
  lemma NumericPrefixRoundTrip(n: nat, rest: string)
    requires n < 10000
    ensures ExtractNumericPrefix(ZeroPadded(n, 4) + "_" + rest) == Some(n)
    ensures RemoveNumericPrefix(ZeroPadded(n, 4) + "_" + rest) == rest
  {
    assert Pow10(4) == 10000;
    ShortRendering(n, 4);
    var name := ZeroPadded(n, 4) + "_" + rest;
    assert name[..4] == ZeroPadded(n, 4);
    assert name[5..] == rest;
  }

  /** `str::parse::<u32>`: an optional '+', then one or more ASCII digits whose value fits in 32 bits. */
  function ParseU32(s: string): (r: Option<nat>)
    ensures r.Some? ==> r.value <= U32Max
  {
    var digits := if |s| > 0 && s[0] == '+' then s[1..] else s;
    if |digits| > 0 && AllDigits(digits) && DigitsValue(digits) <= U32Max then Some(DigitsValue(digits))
    else None
  }

  /** A number written out in decimal, with or without leading zeros, parses back to itself; a '-' sign or an empty name does not parse. */
  lemma ParseU32Rendered(n: nat, width: nat)
    requires n <= U32Max
    ensures ParseU32(ZeroPadded(n, width)) == Some(n)
    ensures ParseU32(NatToString(n)) == Some(n)
    ensures ParseU32("-" + NatToString(n)) == None && ParseU32("") == None
  {
    NatToStringValue(n);
    var minus := "-" + NatToString(n);
    assert !IsAsciiDigit(minus[0]);
  }

  // ---------------------------------------------------------------------
  // Directory listings

  /** One entry of a directory listing. */
  datatype Entry = Entry(name: string, isFile: bool, isDir: bool)

  /** The index of the last '.' of `s`. */
  function LastDot(s: string): (r: Option<nat>)
    ensures r.Some? ==> r.value < |s| && s[r.value] == '.' && forall j :: r.value < j < |s| ==> s[j] != '.'
    ensures r.None? ==> forall j :: 0 <= j < |s| ==> s[j] != '.'
  {
    if |s| == 0 then None
    else if s[|s| - 1] == '.' then Some(|s| - 1)
    else LastDot(s[..|s| - 1])
  }

  /** `Path::extension`: the text after the last '.', unless that '.' starts the name. */
  function Extension(name: string): Option<string>
  {
    match LastDot(name)
    case Some(d) => if d > 0 then Some(name[d + 1..]) else None
    case None => None
  }

  /** `Path::file_stem`: the name before the last '.', unless that '.' starts the name. */
  function Stem(name: string): string
  {
    match LastDot(name)
    case Some(d) => if d > 0 then name[..d] else name
    case None => name
  }

  /** A "<stem>.toml" name has that stem and the extension "toml". */
  lemma TomlName(stem: string)
    requires |stem| > 0
    ensures Stem(stem + ".toml") == stem && Extension(stem + ".toml") == Some("toml")
  {
    var name := stem + ".toml";
    assert forall j :: 0 <= j < |"toml"| ==> "toml"[j] != '.';
    LastDotPast(stem + ".", "toml");
    assert stem + "." + "toml" == name;
    assert LastDot(stem + ".") == Some(|stem|);
    assert name[..|stem|] == stem && name[|stem| + 1..] == "toml";
  }

  /** Text without a '.' appended after the last '.' leaves it where it was. */
  lemma {:induction false} LastDotPast(s: string, t: string)
    requires forall j :: 0 <= j < |t| ==> t[j] != '.'
    ensures LastDot(s + t) == LastDot(s)
    decreases |t|
  {
    if |t| > 0 {
      var u := t[..|t| - 1];
      var x := s + t;
      assert x[|x| - 1] == t[|t| - 1] != '.';
      assert x[..|x| - 1] == s + u;
      LastDotPast(s, u);
      assert LastDot(x) == LastDot(s + u);
    } else {
      assert s + t == s;
    }
  }

  /** A request file of a collection directory: a `.toml` file other than the collection's own `collection.toml`. */
  predicate IsRequestFile(e: Entry)
  {
    e.isFile && Extension(e.name) == Some("toml") && Stem(e.name) != "collection"
  }

  /** The number a request file's stem parses to, if any. */
  function RequestNumber(e: Entry): Option<nat>
  {
    if IsRequestFile(e) then ParseU32(Stem(e.name)) else None
  }

  function Max(a: nat, b: nat): nat
  {
    if a >= b then a else b
  }

  /** The largest of the numbers present in `ks`, or 0 when there is none. */
  function MaxKey(ks: seq<Option<nat>>): nat
  {
    if |ks| == 0 then 0
    else
      var m := MaxKey(ks[..|ks| - 1]);
      match ks[|ks| - 1]
      case Some(n) => Max(m, n)
      case None => m
  }

  lemma MaxKeyStep(ks: seq<Option<nat>>, k: Option<nat>)
    ensures MaxKey(ks + [k]) == match k case Some(n) => Max(MaxKey(ks), n) case None => MaxKey(ks)
  {
    assert (ks + [k])[..|ks|] == ks;
  }

  /** `MaxKey` is at least every number present, and is 0 or one of them. */
  lemma {:induction false} MaxKeyIsMax(ks: seq<Option<nat>>)
    ensures forall i :: 0 <= i < |ks| && ks[i].Some? ==> ks[i].value <= MaxKey(ks)
    ensures MaxKey(ks) == 0 || exists i :: 0 <= i < |ks| && ks[i] == Some(MaxKey(ks))
    decreases |ks|
  {
    if |ks| > 0 {
      var init := ks[..|ks| - 1];
      MaxKeyIsMax(init);
      assert forall i :: 0 <= i < |init| ==> ks[i] == init[i];
      if MaxKey(ks) != 0 && MaxKey(ks) == MaxKey(init) {
        var i :| 0 <= i < |init| && init[i] == Some(MaxKey(init));
        assert ks[i] == Some(MaxKey(ks));
      }
    }
  }

  /** The largest request number in the listing, or 0 when there is none. */
  function MaxRequestNumber(entries: seq<Entry>): nat
  {
    MaxKey(Map(entries, RequestNumber))
  }

  /** The largest request number is at least every request number, and is 0 or one of them. */
  lemma MaxRequestNumberIsMax(entries: seq<Entry>)
    ensures forall i :: 0 <= i < |entries| && RequestNumber(entries[i]).Some? ==>
      RequestNumber(entries[i]).value <= MaxRequestNumber(entries)
    ensures MaxRequestNumber(entries) == 0 ||
      exists i :: 0 <= i < |entries| && RequestNumber(entries[i]) == Some(MaxRequestNumber(entries))
    ensures MaxRequestNumber(entries) <= U32Max
  {
    var ks := Map(entries, RequestNumber);
    MaxKeyIsMax(ks);
    forall i | 0 <= i < |entries|
      ensures ks[i] == RequestNumber(entries[i])
    {
      MapIndex(entries, RequestNumber, i);
    }
  }

  /** One more entry of the listing: the largest request number grows only by a numbered request file. */
  lemma RequestNumberStep(entries: seq<Entry>, i: nat)
    requires i < |entries|
    ensures MaxKey(Map(entries[..i + 1], RequestNumber)) ==
      match RequestNumber(entries[i])
      case Some(n) => Max(MaxKey(Map(entries[..i], RequestNumber)), n)
      case None => MaxKey(Map(entries[..i], RequestNumber))
  {
    assert entries[..i] + [entries[i]] == entries[..i + 1];
    MapStep(entries[..i], entries[i], RequestNumber);
    MaxKeyStep(Map(entries[..i], RequestNumber), RequestNumber(entries[i]));
  }

  /** `find_next_numeric_prefix`: one more than the largest request number (a `u32`, wrapping past `u32::MAX`). */
  method FindNextNumericPrefix(entries: seq<Entry>) returns (next: nat)
    ensures next == (MaxRequestNumber(entries) + 1) % (U32Max + 1)
  {
    var maxPrefix := 0;
    var i := 0;
    while i < |entries|
      invariant i <= |entries|
      invariant maxPrefix == MaxKey(Map(entries[..i], RequestNumber))
    {
      var e := entries[i];
      RequestNumberStep(entries, i);
      if e.isFile && Extension(e.name) == Some("toml") {
        var filename := Stem(e.name);
        if filename != "collection" {
          var id := ParseU32(filename);
          if id.Some? {
            maxPrefix := Max(maxPrefix, id.value);
          }
        }
      }
      i := i + 1;
    }
    assert entries[..i] == entries;
    next := (maxPrefix + 1) % (U32Max + 1);
  }

  /**
   * The name a new request file is given, `format!("{:04}.toml", next)`,
   * is a request file whose number is `next`, above every request number
   * in the directory, so it names none of the request files there; this
   * holds unless the directory already holds request number `u32::MAX`.
   */
  lemma NextRequestFileIsFresh(entries: seq<Entry>)
    requires MaxRequestNumber(entries) < U32Max
    ensures var next := MaxRequestNumber(entries) + 1;
      var e := Entry(ZeroPadded(next, 4) + ".toml", true, false);
      IsRequestFile(e) && RequestNumber(e) == Some(next)
      && (forall i :: 0 <= i < |entries| && RequestNumber(entries[i]).Some? ==> RequestNumber(entries[i]).value < next)
      && (forall i :: 0 <= i < |entries| && IsRequestFile(entries[i]) ==> entries[i].name != e.name)
  {
    MaxRequestNumberIsMax(entries);
    var next := MaxRequestNumber(entries) + 1;
    var stem := ZeroPadded(next, 4);
    ParseU32Rendered(next, 4);
    TomlName(stem);
    assert stem != "collection" by {
      assert IsAsciiDigit(stem[0]);
    }
    forall i | 0 <= i < |entries| && IsRequestFile(entries[i])
      ensures entries[i].name != stem + ".toml"
    {
    }
  }

  /** A directory name of exactly four ASCII digits (byte length and char count agree on such names). */
  predicate IsNumberedFolder(e: Entry)
  {
    e.isDir && |e.name| == 4 && AllDigits(e.name)
  }

  function FolderNumber(e: Entry): Option<nat>
  {
    if IsNumberedFolder(e) then Some(DigitsValue(e.name)) else None
  }

  /** The largest numbered-folder value in the listing, or 0 when there is none. */
  function MaxFolderNumber(entries: seq<Entry>): nat
  {
    MaxKey(Map(entries, FolderNumber))
  }

  /** The largest folder number is at least every folder number, is 0 or one of them, and has four digits. */
  lemma MaxFolderNumberIsMax(entries: seq<Entry>)
    ensures forall i :: 0 <= i < |entries| && IsNumberedFolder(entries[i]) ==>
      DigitsValue(entries[i].name) <= MaxFolderNumber(entries)
    ensures MaxFolderNumber(entries) == 0 ||
      exists i :: 0 <= i < |entries| && IsNumberedFolder(entries[i]) && DigitsValue(entries[i].name) == MaxFolderNumber(entries)
    ensures MaxFolderNumber(entries) < 10000
  {
    var ks := Map(entries, FolderNumber);
    MaxKeyIsMax(ks);
    forall i | 0 <= i < |entries|
      ensures ks[i] == FolderNumber(entries[i])
    {
      MapIndex(entries, FolderNumber, i);
    }
    if MaxFolderNumber(entries) != 0 {
      var i :| 0 <= i < |entries| && ks[i] == Some(MaxFolderNumber(entries));
      DigitsBelow(entries[i].name);
    }
  }

  /** One more entry of the listing: the largest folder number grows only by a numbered folder. */
  lemma FolderNumberStep(entries: seq<Entry>, i: nat)
    requires i < |entries|
    ensures MaxKey(Map(entries[..i + 1], FolderNumber)) ==
      if IsNumberedFolder(entries[i]) then Max(MaxKey(Map(entries[..i], FolderNumber)), DigitsValue(entries[i].name))
      else MaxKey(Map(entries[..i], FolderNumber))
  {
    assert entries[..i] + [entries[i]] == entries[..i + 1];
    MapStep(entries[..i], entries[i], FolderNumber);
    MaxKeyStep(Map(entries[..i], FolderNumber), FolderNumber(entries[i]));
  }

  /** A numbered folder's name parses as a `u32` to its value. */
  lemma FolderNameParses(e: Entry)
    requires IsNumberedFolder(e)
    ensures ParseU32(e.name) == Some(DigitsValue(e.name))
  {
    DigitsBelow(e.name);
    assert e.name[0] != '+';
  }

  /** `find_next_collection_number`: "0001" when the collections directory is missing, else one more than the largest numbered folder, at least four digits wide. */
  method FindNextCollectionNumber(collectionsExist: bool, entries: seq<Entry>) returns (name: string)
    ensures !collectionsExist ==> name == "0001"
    ensures collectionsExist ==> name == ZeroPadded(MaxFolderNumber(entries) + 1, 4)
  {
    if !collectionsExist {
      return "0001";
    }
    var maxNumber := 0;
    var i := 0;
    while i < |entries|
      invariant i <= |entries|
      invariant maxNumber == MaxKey(Map(entries[..i], FolderNumber))
    {
      var e := entries[i];
      FolderNumberStep(entries, i);
      if e.isDir && |e.name| == 4 && AllDigits(e.name) {
        FolderNameParses(e);
        var number := ParseU32(e.name);
        maxNumber := Max(maxNumber, number.value);
      }
      i := i + 1;
    }
    assert entries[..i] == entries;
    name := ZeroPadded(maxNumber + 1, 4);
  }

  /** Below 9999 the next collection number is a four-digit name above every numbered folder, and so names none of the directories. */
  lemma NextCollectionNumberIsFresh(entries: seq<Entry>)
    requires MaxFolderNumber(entries) < 9999
    ensures var name := ZeroPadded(MaxFolderNumber(entries) + 1, 4);
      |name| == 4 && DigitsValue(name) == MaxFolderNumber(entries) + 1
      && forall i :: 0 <= i < |entries| && entries[i].isDir ==> entries[i].name != name
  {
    MaxFolderNumberIsMax(entries);
    var next := MaxFolderNumber(entries) + 1;
    assert Pow10(4) == 10000;
    ShortRendering(next, 4);
  }

  /**
   * With folder 9999 present the next number is "10000". That name is not
   * four digits long, so once the folder exists it is not counted and the
   * following call names the same folder again.
   */
  lemma NextCollectionNumberAfter9999(entries: seq<Entry>)
    requires MaxFolderNumber(entries) == 9999
    ensures var name := ZeroPadded(10000, 4);
      |name| == 5 && DigitsValue(name) == 10000
      && MaxFolderNumber(entries + [Entry(name, false, true)]) == 9999
  {
    NatToStringLength(10000, 5);
    assert Pow10(4) == 10000 && Pow10(5) == 100000;
    var e := Entry(ZeroPadded(10000, 4), false, true);
    MapStep(entries, e, FolderNumber);
    MaxKeyStep(Map(entries, FolderNumber), FolderNumber(e));
  }

  /** A missing collections directory yields the same name as an empty one. */
  lemma MissingCollectionsLikeEmpty()
    ensures ZeroPadded(MaxFolderNumber([]) + 1, 4) == "0001"
  {
    assert Map([], FolderNumber) == [];
    assert NatToString(1) == "1";
    assert Zeros(3) == "000";
  }

  // ---------------------------------------------------------------------
  // Orders

  /**
   * The order of `sort_by_numeric_prefix` and of the request files in
   * `load_request_by_indices`, given each name's number: numbered names
   * first, by number; then the others, by `Ord` on strings.
   */
  predicate NumberedLe(ka: Option<nat>, kb: Option<nat>, a: string, b: string)
  {
    match (ka, kb)
    case (Some(x), Some(y)) => x <= y
    case (Some(_), None) => true
    case (None, Some(_)) => false
    case (None, None) => LexLe(a, b)
  }

  lemma NumberedLeTotal(ka: Option<nat>, kb: Option<nat>, a: string, b: string)
    ensures NumberedLe(ka, kb, a, b) || NumberedLe(kb, ka, b, a)
  {
    LexLeTotal(a, b);
  }

  lemma NumberedLeTransitive(ka: Option<nat>, kb: Option<nat>, kc: Option<nat>, a: string, b: string, c: string)
    requires NumberedLe(ka, kb, a, b) && NumberedLe(kb, kc, b, c)
    ensures NumberedLe(ka, kc, a, c)
  {
    if ka.None? && kb.None? && kc.None? {
      LexLeTransitive(a, b, c);
    }
  }

  /** The comparator of `sort_by_numeric_prefix`. */
  predicate PrefixLe(a: string, b: string)
  {
    NumberedLe(ExtractNumericPrefix(a), ExtractNumericPrefix(b), a, b)
  }

  /** The comparator of the request files in `load_request_by_indices`: stems that parse as `u32` first. */
  predicate StemLe(a: string, b: string)
  {
    NumberedLe(ParseU32(a), ParseU32(b), a, b)
  }

  lemma PrefixLeTotalPreorder()
    ensures TotalPreorder(PrefixLe)
  {
    forall a, b
      ensures PrefixLe(a, b) || PrefixLe(b, a)
    {
      NumberedLeTotal(ExtractNumericPrefix(a), ExtractNumericPrefix(b), a, b);
    }
    forall a, b, c | PrefixLe(a, b) && PrefixLe(b, c)
      ensures PrefixLe(a, c)
    {
      NumberedLeTransitive(ExtractNumericPrefix(a), ExtractNumericPrefix(b), ExtractNumericPrefix(c), a, b, c);
    }
  }

  lemma StemLeTotalPreorder()
    ensures TotalPreorder(StemLe)
  {
    forall a, b
      ensures StemLe(a, b) || StemLe(b, a)
    {
      NumberedLeTotal(ParseU32(a), ParseU32(b), a, b);
    }
    forall a, b, c | StemLe(a, b) && StemLe(b, c)
      ensures StemLe(a, c)
    {
      NumberedLeTransitive(ParseU32(a), ParseU32(b), ParseU32(c), a, b, c);
    }
  }

  /** Digit strings of one length with the same value are the same string. */
  lemma {:induction false} DigitsInjective(s: string, t: string)
    requires |s| == |t| && AllDigits(s) && AllDigits(t) && DigitsValue(s) == DigitsValue(t)
    ensures s == t
    decreases |s|
  {
    if |s| > 0 {
      var n := |s|;
      assert IsAsciiDigit(s[n - 1]) && IsAsciiDigit(t[n - 1]);
      DigitsInjective(s[..n - 1], t[..n - 1]);
      assert s == s[..n - 1] + [s[n - 1]] && t == t[..n - 1] + [t[n - 1]];
    }
  }

  /** On digit strings of one length, string order is numeric order. */
  lemma {:induction false} DigitsOrder(s: string, t: string)
    requires |s| == |t| && AllDigits(s) && AllDigits(t) && DigitsValue(s) < DigitsValue(t)
    ensures LexLe(s, t) && s != t
    decreases |s|
  {
    var n := |s|;
    var s', t' := s[..n - 1], t[..n - 1];
    assert IsAsciiDigit(s[n - 1]) && IsAsciiDigit(t[n - 1]);
    assert s == s' + [s[n - 1]] && t == t' + [t[n - 1]];
    if DigitsValue(s') < DigitsValue(t') {
      DigitsOrder(s', t');
      LexAppendDiffer(s', t', [s[n - 1]], [t[n - 1]]);
    } else {
      DigitsInjective(s', t');
      LexCommonPrefix(s', [s[n - 1]], [t[n - 1]]);
    }
  }

  /**
   * For the request files this store creates, named `format!("{:04}.toml", n)`
   * with `n` below 10000, the file-name order `load_collections` sorts
   * requests by and the numbered-stem order of `load_request_by_indices`
   * agree, so both assign the same request index to a file.
   */
  lemma CreatedFileOrdersAgree(a: nat, b: nat)
    requires a < 10000 && b < 10000
    ensures LexLe(ZeroPadded(a, 4) + ".toml", ZeroPadded(b, 4) + ".toml") <==> StemLe(ZeroPadded(a, 4), ZeroPadded(b, 4))
    ensures StemLe(ZeroPadded(a, 4), ZeroPadded(b, 4)) <==> a <= b
  {
    assert Pow10(4) == 10000;
    ShortRendering(a, 4);
    ShortRendering(b, 4);
    ParseU32Rendered(a, 4);
    ParseU32Rendered(b, 4);
    var pa, pb := ZeroPadded(a, 4), ZeroPadded(b, 4);
    if a < b {
      DigitsOrder(pa, pb);
      LexAppendDiffer(pa, pb, ".toml", ".toml");
    } else if b < a {
      DigitsOrder(pb, pa);
      LexAppendDiffer(pb, pa, ".toml", ".toml");
    } else {
      LexLeTotal(pa + ".toml", pb + ".toml");
    }
  }

  /** `sort_by_numeric_prefix`, in place. */
  method SortByNumericPrefix(names: array<string>)
    modifies names
    ensures SortedBy(names[..], PrefixLe)
    ensures multiset(names[..]) == multiset(old(names[..]))
  {
    PrefixLeTotalPreorder();
    SortBy(names, PrefixLe);
  }

  /**
   * What a list sorted by numeric prefix looks like: a prefixed name never
   * follows an unprefixed one, prefixed names come by increasing number and
   * unprefixed ones in string order.
   */
  lemma PrefixSortedOrder(names: seq<string>, i: nat, j: nat)
    requires SortedBy(names, PrefixLe) && i < j < |names|
    ensures HasNumericPrefix(names[j]) ==> HasNumericPrefix(names[i])
    ensures HasNumericPrefix(names[i]) && HasNumericPrefix(names[j]) ==>
      DigitsValue(names[i][..4]) <= DigitsValue(names[j][..4])
    ensures !HasNumericPrefix(names[i]) && !HasNumericPrefix(names[j]) ==> LexLe(names[i], names[j])
  {
    assert PrefixLe(names[i], names[j]);
  }

  // ---------------------------------------------------------------------
  // load_collections: ordering and indices

  /** A request as `load_collections` keeps it: its file name and the indices it is addressed by. */
  datatype StoredRequest = StoredRequest(fileName: string, collectionIndex: nat, requestIndex: nat)

  /** A collection as `load_collections` keeps it: its folder name and its requests. */
  datatype StoredCollection = StoredCollection(folderName: string, requests: seq<StoredRequest>)

  /** Requests are sorted by file name (`Ord` on strings). */
  predicate FileNameLe(a: StoredRequest, b: StoredRequest)
  {
    LexLe(a.fileName, b.fileName)
  }

  /** The key collections are sorted by: the folder name as a `u32`, or `u32::MAX` when it does not parse. */
  function FolderKey(folderName: string): (k: nat)
    ensures k <= U32Max
  {
    match ParseU32(folderName)
    case Some(n) => n
    case None => U32Max
  }

  predicate FolderLe(a: StoredCollection, b: StoredCollection)
  {
    FolderKey(a.folderName) <= FolderKey(b.folderName)
  }

  lemma FileNameLeTotalPreorder()
    ensures TotalPreorder(FileNameLe)
  {
    forall a, b
      ensures FileNameLe(a, b) || FileNameLe(b, a)
    {
      LexLeTotal(a.fileName, b.fileName);
    }
    forall a, b, c | FileNameLe(a, b) && FileNameLe(b, c)
      ensures FileNameLe(a, c)
    {
      LexLeTransitive(a.fileName, b.fileName, c.fileName);
    }
  }

  function FileName(r: StoredRequest): string
  {
    r.fileName
  }

  /** What the ordering keeps of a collection: its folder name and the file names of its requests, in any order. */
  datatype Shape = Shape(folderName: string, fileNames: multiset<string>)

  function ShapeOf(c: StoredCollection): Shape
  {
    Shape(c.folderName, multiset(Map(c.requests, FileName)))
  }

  /** Every request is addressed by its collection's position and its own position. */
  predicate Indexed(collections: seq<StoredCollection>)
  {
    forall i, k :: 0 <= i < |collections| && 0 <= k < |collections[i].requests| ==>
      collections[i].requests[k].collectionIndex == i && collections[i].requests[k].requestIndex == k
  }

  /** The same folder with the same request files in the same order. */
  predicate SameFiles(c: StoredCollection, d: StoredCollection)
  {
    c.folderName == d.folderName && |c.requests| == |d.requests|
    && forall k :: 0 <= k < |c.requests| ==> c.requests[k].fileName == d.requests[k].fileName
  }

  lemma SameFilesAlike(c: StoredCollection, d: StoredCollection)
    requires SameFiles(c, d)
    ensures ShapeOf(c) == ShapeOf(d)
    ensures SortedBy(c.requests, FileNameLe) ==> SortedBy(d.requests, FileNameLe)
  {
    MapPointwise(c.requests, d.requests, FileName);
  }

  lemma {:induction false} MapPointwise<A, B>(s: seq<A>, t: seq<A>, f: A -> B)
    requires |s| == |t| && forall k :: 0 <= k < |s| ==> f(s[k]) == f(t[k])
    ensures Map(s, f) == Map(t, f)
    decreases |s|
  {
    if |s| > 0 {
      MapPointwise(s[1..], t[1..], f);
    }
  }

  /** Rearranging a collection's requests keeps its shape. */
  lemma RearrangedKeepsShape(c: StoredCollection, requests: seq<StoredRequest>)
    requires multiset(requests) == multiset(c.requests)
    ensures ShapeOf(c.(requests := requests)) == ShapeOf(c)
  {
    MapPermutation(requests, c.requests, FileName);
  }

  method SortEachCollection(loaded: seq<StoredCollection>) returns (data: seq<StoredCollection>)
    ensures |data| == |loaded|
    ensures forall m :: 0 <= m < |data| ==> SortedBy(data[m].requests, FileNameLe)
    ensures forall m :: 0 <= m < |data| ==> ShapeOf(data[m]) == ShapeOf(loaded[m])
  {
    FileNameLeTotalPreorder();
    data := [];
    var i := 0;
    while i < |loaded|
      invariant i <= |loaded| && |data| == i
      invariant forall m :: 0 <= m < i ==> SortedBy(data[m].requests, FileNameLe)
      invariant forall m :: 0 <= m < i ==> ShapeOf(data[m]) == ShapeOf(loaded[m])
    {
      var sorted := Sorted(loaded[i].requests, FileNameLe);
      RearrangedKeepsShape(loaded[i], sorted);
      ghost var before := data;
      data := data + [loaded[i].(requests := sorted)];
      assert forall m :: 0 <= m < i ==> data[m] == before[m];
      i := i + 1;
    }
  }

  /** The requests of `c`, each addressed by `ci` and its position. */
  method Reindex(c: StoredCollection, ci: nat) returns (r: StoredCollection)
    ensures SameFiles(c, r)
    ensures forall k :: 0 <= k < |r.requests| ==> r.requests[k].collectionIndex == ci && r.requests[k].requestIndex == k
  {
    var requests := c.requests;
    var k := 0;
    while k < |requests|
      invariant k <= |requests| == |c.requests|
      invariant forall m :: 0 <= m < |requests| ==> requests[m].fileName == c.requests[m].fileName
      invariant forall m :: 0 <= m < k ==> requests[m].collectionIndex == ci && requests[m].requestIndex == m
    {
      requests := requests[k := requests[k].(collectionIndex := ci, requestIndex := k)];
      k := k + 1;
    }
    r := c.(requests := requests);
  }

  /** The index loop of `load_collections`: every request gets its collection's position and its own. */
  method ReindexAll(a: array<StoredCollection>)
    modifies a
    ensures Indexed(a[..])
    ensures forall m :: 0 <= m < a.Length ==> SameFiles(old(a[m]), a[m])
  {
    var ci := 0;
    while ci < a.Length
      invariant ci <= a.Length
      invariant forall m :: 0 <= m < a.Length ==> SameFiles(old(a[m]), a[m])
      invariant forall m :: ci <= m < a.Length ==> a[m] == old(a[m])
      invariant forall m, k :: 0 <= m < ci && 0 <= k < |a[m].requests| ==>
        a[m].requests[k].collectionIndex == m && a[m].requests[k].requestIndex == k
    {
      var c := Reindex(a[ci], ci);
      a[ci] := c;
      ci := ci + 1;
    }
  }

  lemma FolderLeTotalPreorder()
    ensures TotalPreorder(FolderLe)
  {
  }

  /**
   * The ordering part of `load_collections`: each collection's requests
   * sorted by file name, the collections sorted by folder number, and then
   * every request's indices set to its position. The result holds the same
   * folders with the same request files, in that order, and every request
   * is addressed by its position.
   */
  method OrderCollections(loaded: seq<StoredCollection>) returns (r: seq<StoredCollection>)
    ensures |r| == |loaded|
    ensures SortedBy(r, FolderLe)
    ensures forall i :: 0 <= i < |r| ==> SortedBy(r[i].requests, FileNameLe)
    ensures Indexed(r)
    ensures multiset(Map(r, ShapeOf)) == multiset(Map(loaded, ShapeOf))
  {
    var data := SortEachCollection(loaded);
    var a := new StoredCollection[|data|](i requires 0 <= i < |data| => data[i]);
    assert a[..] == data;
    FolderLeTotalPreorder();
    SortBy(a, FolderLe);
    ghost var ordered := a[..];
    ReindexAll(a);
    r := a[..];
    ReindexedKeepsOrder(loaded, data, ordered, r);
  }

  /**
   * Re-indexing the sorted folders keeps what sorting established: the
   * folder order, each folder's request order, and the folders' shapes.
   */
  lemma ReindexedKeepsOrder(loaded: seq<StoredCollection>, data: seq<StoredCollection>,
                            ordered: seq<StoredCollection>, r: seq<StoredCollection>)
    requires |data| == |loaded|
    requires forall m :: 0 <= m < |data| ==> SortedBy(data[m].requests, FileNameLe)
    requires forall m :: 0 <= m < |data| ==> ShapeOf(data[m]) == ShapeOf(loaded[m])
    requires SortedBy(ordered, FolderLe) && multiset(ordered) == multiset(data)
    requires |r| == |ordered| && forall m :: 0 <= m < |r| ==> SameFiles(ordered[m], r[m])
    ensures SortedBy(r, FolderLe)
    ensures forall i :: 0 <= i < |r| ==> SortedBy(r[i].requests, FileNameLe)
    ensures multiset(Map(r, ShapeOf)) == multiset(Map(loaded, ShapeOf))
  {
    MapPointwise(data, loaded, ShapeOf);
    MapPermutation(ordered, data, ShapeOf);
    forall m | 0 <= m < |r|
      ensures ShapeOf(r[m]) == ShapeOf(ordered[m]) && SortedBy(r[m].requests, FileNameLe)
    {
      assert ordered[m] in multiset(data);
      SameFilesAlike(ordered[m], r[m]);
    }
    MapPointwise(r, ordered, ShapeOf);
    assert forall a, b :: 0 <= a < b < |r| ==> FolderLe(ordered[a], ordered[b]);
  }

  // ---------------------------------------------------------------------
  // load_request_by_indices

  /** The request stems of a collection directory, in listing order. */
  function RequestStems(entries: seq<Entry>): (r: seq<string>)
    ensures forall s :: s in r ==> exists i :: 0 <= i < |entries| && IsRequestFile(entries[i]) && Stem(entries[i].name) == s
  {
    if |entries| == 0 then []
    else
      var rest := RequestStems(entries[..|entries| - 1]);
      var last := entries[|entries| - 1];
      if IsRequestFile(last) then rest + [Stem(last.name)] else rest
  }

  /**
   * The file-selection part of `load_request_by_indices`: `None` when the
   * collection index or the request index is out of range for the loaded
   * collections, when the collection's directory is not found (`dir` is
   * `None`), or when the directory holds no more request files than the
   * request index. Otherwise, the stem at the request index of the request
   * files sorted numbered stems first.
   */
  method LoadRequestByIndices(collections: seq<RequestCollection>, collectionIndex: nat, requestIndex: nat,
                              dir: Option<seq<Entry>>) returns (stem: Option<string>)
    ensures collectionIndex >= |collections| ==> stem.None?
    ensures collectionIndex < |collections| && requestIndex >= |collections[collectionIndex].requests| ==> stem.None?
    ensures dir.None? ==> stem.None?
    ensures collectionIndex < |collections| && requestIndex < |collections[collectionIndex].requests| && dir.Some? ==>
      (stem.Some? <==> requestIndex < |RequestStems(dir.value)|)
    ensures stem.Some? ==> exists files :: (SortedBy(files, StemLe) && multiset(files) == multiset(RequestStems(dir.value))
      && requestIndex < |files| && files[requestIndex] == stem.value)
  {
    if collectionIndex >= |collections| {
      return None;
    }
    if requestIndex >= |collections[collectionIndex].requests| {
      return None;
    }
    if dir.None? {
      return None;
    }
    var entries := dir.value;
    var requestFiles := [];
    var i := 0;
    while i < |entries|
      invariant i <= |entries|
      invariant requestFiles == RequestStems(entries[..i])
    {
      assert entries[..i + 1][..i] == entries[..i];
      var e := entries[i];
      if e.isFile && Extension(e.name) == Some("toml") {
        var filename := Stem(e.name);
        if filename != "collection" {
          requestFiles := requestFiles + [filename];
        }
      }
      i := i + 1;
    }
    assert entries[..i] == entries;
    StemLeTotalPreorder();
    var files := Sorted(requestFiles, StemLe);
    assert |files| == |multiset(files)| == |requestFiles|;
    if requestIndex >= |files| {
      return None;
    }
    stem := Some(files[requestIndex]);
  }

  /**
   * What a request-file list sorted for `load_request_by_indices` looks
   * like: stems that parse as `u32` come first, by value, then the others
   * in string order.
   */
  lemma StemSortedOrder(files: seq<string>, i: nat, j: nat)
    requires SortedBy(files, StemLe) && i < j < |files|
    ensures ParseU32(files[j]).Some? ==> ParseU32(files[i]).Some? && ParseU32(files[i]).value <= ParseU32(files[j]).value
    ensures ParseU32(files[i]).None? ==> ParseU32(files[j]).None? && LexLe(files[i], files[j])
  {
    assert StemLe(files[i], files[j]);
  }
}
