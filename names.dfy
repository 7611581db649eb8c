/**
 * How the downloader names the saved file: from the URL path, from a
 * Content-Disposition header, and by adding a numeric suffix when the name
 * is already taken in the output directory.
 */
module Names {
  import opened Wrappers
  import opened Text

  // ---------------------------------------------------------------- from the URL

  /** `filename_from_url`, given the path component of the URL. */
  function FilenameFromUrl(path: string): (r: Option<string>)
    ensures r.None? <==> AllIn(Basename(path), UrlBlank)
    ensures r.Some? ==> r.value == Basename(path) && |r.value| > 0
  {
    var name := Basename(path);
    if |Strip(name, UrlBlank)| == 0 then None else Some(name)
  }

  // ------------------------------------------------------------ from the headers

  /** The three forms the header argument may take: a mapping, a list of
      "Key: Value" lines, or one string holding such lines. */
  datatype Headers =
    | Mapping(fields: map<string, string>)
    | Lines(lines: seq<string>)
    | Raw(text: string)

  /** `dict([x.split(':', 1) ...])` raises on a line without ':'; `fnames[0]`
      raises when no `filename=` parameter is present. */
  datatype HeaderError = MalformedLine | MissingFilenameParam

  /** `dict([x.split(':', 1) for x in lines])`: later lines win on repeated keys. */
  function LinesToFields(lines: seq<string>): (r: Result<map<string, string>, HeaderError>)
    ensures r.Failure? <==> exists k :: 0 <= k < |lines| && ':' !in lines[k]
    ensures r.Failure? ==> r.error == MalformedLine
  {
    if |lines| == 0 then Success(map[])
    else
      match LinesToFields(lines[..|lines| - 1])
      case Failure(e) => Failure(e)
      case Success(fields) =>
        match SplitOnce(lines[|lines| - 1], ':')
        case None => Failure(MalformedLine)
        case Some((key, value)) => Success(fields[key := value])
  }

  /** Every key-value line is present, with the value of the last line that has its key. */
  lemma {:induction false} LinesToFieldsLastWins(lines: seq<string>, k: nat)
    requires LinesToFields(lines).Success? && k < |lines|
    requires forall j :: k < j < |lines| ==> SplitOnce(lines[j], ':').value.0 != SplitOnce(lines[k], ':').value.0
    ensures SplitOnce(lines[k], ':').Some?
    ensures var (key, value) := SplitOnce(lines[k], ':').value;
      key in LinesToFields(lines).value && LinesToFields(lines).value[key] == value
  {
    var front := lines[..|lines| - 1];
    if k < |lines| - 1 {
      assert forall j :: k < j < |front| ==> front[j] == lines[j];
      LinesToFieldsLastWins(front, k);
    }
  }

  /** The keys of the dict are exactly the keys of the lines. */
  lemma {:induction false} LinesToFieldsDomain(lines: seq<string>)
    requires LinesToFields(lines).Success?
    ensures forall key :: key in LinesToFields(lines).value <==>
      exists j :: 0 <= j < |lines| && ':' in lines[j] && SplitOnce(lines[j], ':').value.0 == key
  {
    if |lines| > 0 {
      var front := lines[..|lines| - 1];
      var last := |lines| - 1;
      LinesToFieldsDomain(front);
      assert forall j :: 0 <= j < |front| ==> front[j] == lines[j];
      forall key | key in LinesToFields(lines).value
        ensures exists j :: 0 <= j < |lines| && ':' in lines[j] && SplitOnce(lines[j], ':').value.0 == key
      {
        if key !in LinesToFields(front).value {
          assert SplitOnce(lines[last], ':').value.0 == key;
        }
      }
    }
  }

  function FieldsOf(h: Headers): Result<map<string, string>, HeaderError>
  {
    match h
    case Mapping(fields) => Success(fields)
    case Lines(lines) => LinesToFields(lines)
    case Raw(text) => LinesToFields(SplitLines(text))
  }

  /** The disposition type, trimmed and lower-cased, is `inline` or `attachment`. */
  predicate IsDispositionType(segment: string)
  {
    var t := LowerAscii(Strip(segment, Whitespace)); t == "inline" || t == "attachment"
  }

  predicate IsFilenameParam(segment: string)
  {
    StartsWith(Strip(segment, Whitespace), "filename=")
  }

  /** `[x for x in s if p(x)]`. */
  function Filter<T>(p: T -> bool, s: seq<T>): (r: seq<T>)
    ensures |r| <= |s|
    ensures forall k :: 0 <= k < |r| ==> p(r[k])
  {
    if |s| == 0 then []
    else if p(s[0]) then [s[0]] + Filter(p, s[1..])
    else Filter(p, s[1..])
  }

  /** The filter keeps nothing exactly when no element passes. */
  lemma {:induction false} FilterEmpty<T>(p: T -> bool, s: seq<T>)
    ensures |Filter(p, s)| == 0 <==> forall k :: 0 <= k < |s| ==> !p(s[k])
  {
    if |s| > 0 {
      FilterEmpty(p, s[1..]);
      assert forall k :: 1 <= k < |s| ==> s[k] == s[1..][k - 1];
    }
  }

  /** Every element that passes is kept. */
  lemma {:induction false} FilterKeepsAll<T>(p: T -> bool, s: seq<T>)
    ensures forall k :: 0 <= k < |s| && p(s[k]) ==> s[k] in Filter(p, s)
  {
    if |s| > 0 {
      FilterKeepsAll(p, s[1..]);
      assert forall k :: 1 <= k < |s| ==> s[k] == s[1..][k - 1];
    }
  }

  /** Two or more are kept exactly when two or more elements pass. */
  lemma {:induction false} FilterSeveral<T>(p: T -> bool, s: seq<T>)
    ensures |Filter(p, s)| >= 2 <==> exists i, j :: 0 <= i < j < |s| && p(s[i]) && p(s[j])
  {
    if |s| > 0 {
      var tail := s[1..];
      FilterSeveral(p, tail);
      FilterEmpty(p, tail);
      assert forall k :: 1 <= k < |s| ==> s[k] == tail[k - 1];
      if exists i, j :: 0 <= i < j < |s| && p(s[i]) && p(s[j]) {
        var i, j :| 0 <= i < j < |s| && p(s[i]) && p(s[j]);
        assert p(tail[j - 1]);
        if i > 0 {
          assert p(tail[i - 1]);
        }
      }
      if |Filter(p, s)| >= 2 {
        if p(s[0]) {
          var j :| 0 <= j < |tail| && p(tail[j]);
          assert p(s[j + 1]);
        } else {
          var i, j :| 0 <= i < j < |tail| && p(tail[i]) && p(tail[j]);
          assert p(s[i + 1]) && p(s[j + 1]);
        }
      }
    }
  }

  /** `[x for x in segments if x.strip().startswith('filename=')]`. */
  function FilenameParams(segments: seq<string>): (r: seq<string>)
    ensures |r| <= |segments|
    ensures forall k :: 0 <= k < |r| ==> IsFilenameParam(r[k])
  {
    Filter(IsFilenameParam, segments)
  }

  /** The filter keeps nothing exactly when no segment is a `filename=` parameter. */
  lemma FilenameParamsEmpty(segments: seq<string>)
    ensures |FilenameParams(segments)| == 0 <==> forall k :: 0 <= k < |segments| ==> !IsFilenameParam(segments[k])
  {
    FilterEmpty(IsFilenameParam, segments);
  }

  /** Every `filename=` segment is kept. */
  lemma FilenameParamsKeepsAll(segments: seq<string>)
    ensures forall k :: 0 <= k < |segments| && IsFilenameParam(segments[k]) ==> segments[k] in FilenameParams(segments)
  {
    FilterKeepsAll(IsFilenameParam, segments);
  }

  /** Two or more are kept exactly when two or more segments are `filename=`
      parameters; with `FilenameParamsEmpty` this fixes which of the three
      cases `len(fnames)` falls in. */
  lemma FilenameParamsSeveral(segments: seq<string>)
    ensures |FilenameParams(segments)| >= 2 <==>
      exists i, j :: 0 <= i < j < |segments| && IsFilenameParam(segments[i]) && IsFilenameParam(segments[j])
  {
    FilterSeveral(IsFilenameParam, segments);
  }

  /** A `filename=` parameter contains '=', so its second '='-field exists. */
  lemma ParamHasValue(param: string)
    requires IsFilenameParam(param)
    ensures '=' in param
  {
    StripIsMiddle(param, Whitespace);
    var a := |param| - |LStrip(param, Whitespace)|;
    var t := Strip(param, Whitespace);
    assert t[..9] == "filename=";
    assert t[8] == t[..9][8] == '=';
    assert param[a + 8] == '=';
  }

  /** The value of a `filename=` parameter: its second '='-separated field. */
  function ParamValue(param: string): (v: string)
    requires '=' in param
    ensures '=' !in v
  {
    Split(param, '=')[1]
  }

  /** That field is exactly the text between the first and the second '='. */
  lemma ParamValueBetweenEquals(param: string)
    requires '=' in param
    ensures var first, v := Split(param, '=')[0], ParamValue(param);
      && '=' !in first && |first| + 1 + |v| <= |param|
      && param[|first|] == '=' && param[|first| + 1..|first| + 1 + |v|] == v
      && (|first| + 1 + |v| == |param| || param[|first| + 1 + |v|] == '=')
  {
    SplitSecond(param, '=');
  }

  /**
   * The body of `filename_from_headers` once the Content-Disposition value
   * (if any) has been looked up.
   */
  function FilenameFromDisposition(cdisp: Option<string>): (r: Result<Option<string>, HeaderError>)
    // a missing or empty header, no ';', a type other than inline/attachment, or
    // several filename parameters: no name
    ensures cdisp.None? || cdisp == Some([]) ==> r == Success(None)
    ensures cdisp.Some? && ';' !in cdisp.value ==> r == Success(None)
    ensures cdisp.Some? && |cdisp.value| > 0 && ';' in cdisp.value && !IsDispositionType(Split(cdisp.value, ';')[0])
      ==> r == Success(None)
    ensures cdisp.Some? && |FilenameParams(Split(cdisp.value, ';')[1..])| > 1 ==> r == Success(None)
    // an accepted type and no filename parameter at all: `fnames[0]` raises
    ensures r.Failure? <==>
      cdisp.Some? && |cdisp.value| > 0 && ';' in cdisp.value && IsDispositionType(Split(cdisp.value, ';')[0])
      && |FilenameParams(Split(cdisp.value, ';')[1..])| == 0
    ensures r.Failure? ==> r.error == MissingFilenameParam
    // a name is returned only through a single filename parameter; it is
    // never empty and never holds a '/'
    ensures r.Success? && r.value.Some? ==>
      && cdisp.Some? && ';' in cdisp.value && IsDispositionType(Split(cdisp.value, ';')[0])
      && |FilenameParams(Split(cdisp.value, ';')[1..])| == 1
    ensures r.Success? && r.value.Some? ==> |r.value.value| > 0 && '/' !in r.value.value
  {
    match cdisp
    case None => Success(None)
    case Some(value) =>
      if |value| == 0 then Success(None)
      else
        var segments := Split(value, ';');
        if |segments| == 1 then Success(None)
        else if !IsDispositionType(segments[0]) then Success(None)
        else
          var params := FilenameParams(segments[1..]);
          if |params| > 1 then Success(None)
          else if |params| == 0 then Failure(MissingFilenameParam)
          else
            ParamHasValue(params[0]);
            var name := Basename(Strip(ParamValue(params[0]), QuoteBlank));
            if |name| == 0 then Success(None) else Success(Some(name))
  }

  /** `filename_from_headers`: the Content-Disposition header is looked up by its exact key. */
  function FilenameFromHeaders(h: Headers): (r: Result<Option<string>, HeaderError>)
    ensures FieldsOf(h).Failure? ==> r == Failure(MalformedLine)
    ensures FieldsOf(h).Success? && "Content-Disposition" !in FieldsOf(h).value ==> r == Success(None)
    ensures FieldsOf(h).Success? && "Content-Disposition" in FieldsOf(h).value ==>
      r == FilenameFromDisposition(Some(FieldsOf(h).value["Content-Disposition"]))
    ensures r.Success? && r.value.Some? ==> |r.value.value| > 0 && '/' !in r.value.value
  {
    match FieldsOf(h)
    case Failure(e) => Failure(e)
    case Success(fields) =>
      FilenameFromDisposition(if "Content-Disposition" in fields then Some(fields["Content-Disposition"]) else None)
  }

  // ----------------------------------------------------------- collision suffix

  /** `filename.rsplit('.', 1)` unpacking fails without a '.'; `int('')` fails
      on an entry whose suffix is exactly " ()". */
  datatype FixError = NoExtension | EmptyIndex

  /** What one directory entry contributes to the index search. */
  datatype Slot = Ignored | Numbered(n: nat) | EmptyNumber

  /**
   * An entry counts when it starts with `name` and its extension-less form,
   * with every occurrence of `name` removed, reads " (" digits ")".
   */
  function SlotOf(entry: string, name: string): Slot
  {
    if !StartsWith(entry, name) then Ignored
    else
      var suffix := RemoveAll(DropExtension(entry), name);
      if StartsWith(suffix, " (") && EndsWith(suffix, ")") then
        assert suffix[1] == suffix[..2][1];
        var digits := suffix[2..|suffix| - 1];
        if !AllDigits(digits) then Ignored
        else if |digits| == 0 then EmptyNumber
        else Numbered(DigitsValue(digits))
      else Ignored
  }

  /** `[SlotOf(x, name) for x in listing]`, in listing order. */
  function SlotsOf(listing: seq<string>, name: string): (slots: seq<Slot>)
    ensures |slots| == |listing|
    ensures forall k :: 0 <= k < |listing| ==> slots[k] == SlotOf(listing[k], name)
  {
    seq(|listing|, k requires 0 <= k < |listing| => SlotOf(listing[k], name))
  }

  /** `idx` is one more than the largest counted index, or 1 when none is counted. */
  predicate IsNextIndex(slots: seq<Slot>, idx: nat)
  {
    && idx >= 1
    && (forall k :: 0 <= k < |slots| && slots[k].Numbered? ==> slots[k].n < idx)
    && (idx == 1 || Numbered(idx - 1) in slots)
  }

  /** `1 + sorted(indexes)[-1]`, or 1 when no entry counts; `int('')` raises first. */
  function NextIndex(slots: seq<Slot>): (r: Result<nat, FixError>)
    ensures r.Failure? <==> EmptyNumber in slots
    ensures r.Failure? ==> r.error == EmptyIndex
    ensures r.Success? ==> IsNextIndex(slots, r.value)
  {
    if |slots| == 0 then Success(1)
    else
      var front := slots[..|slots| - 1];
      assert slots == front + [slots[|slots| - 1]];
      match NextIndex(front)
      case Failure(e) => Failure(e)
      case Success(i) =>
        match slots[|slots| - 1]
        case Ignored => Success(i)
        case EmptyNumber => Failure(EmptyIndex)
        case Numbered(n) => Success(if n + 1 > i then n + 1 else i)
  }

  /** The name `filename_fix_existing` builds: `name(idx).ext`, with no space. */
  function SuffixedName(name: string, idx: nat, ext: string): string
  {
    name + "(" + NatToString(idx) + ")." + ext
  }

  /** `filename_fix_existing` as written. */
  function FilenameFixExisting(filename: string, listing: seq<string>): (r: Result<string, FixError>)
    ensures r == Failure(NoExtension) <==> '.' !in filename
    ensures '.' in filename ==>
      var (name, ext) := RSplitOnce(filename, '.').value;
      var slots := SlotsOf(listing, name);
      && (r.Failure? <==> EmptyNumber in slots)
      && (r.Success? ==> exists idx :: IsNextIndex(slots, idx) && r.value == SuffixedName(name, idx, ext))
  {
    match RSplitOnce(filename, '.')
    case None => Failure(NoExtension)
    case Some((name, ext)) =>
      match NextIndex(SlotsOf(listing, name))
      case Failure(e) => Failure(e)
      case Success(idx) => Success(SuffixedName(name, idx, ext))
  }

  /** Whether `os.path.exists(join(outdir, name))` holds, given the directory's
      entries (`os.listdir` never lists "." and "..", which always exist). */
  predicate Exists(listing: seq<string>, name: string)
  {
    name in listing || name == "." || name == ".."
  }

  // ------------------------------------------ the collision rule, as intended

  /** The slot rule that matches the names produced: `name(N)` with N non-empty digits. */
  function IntendedSlot(entry: string, name: string): Option<nat>
  {
    var stem := DropExtension(entry);
    if StartsWith(stem, name) then
      var suffix := stem[|name|..];
      if |suffix| >= 3 && suffix[0] == '(' && suffix[|suffix| - 1] == ')' && AllDigits(suffix[1..|suffix| - 1])
      then Some(DigitsValue(suffix[1..|suffix| - 1]))
      else None
    else None
  }

  /** `idx` is one more than the largest index read, or 1 when none is read. */
  predicate IsIntendedNext(slots: seq<Option<nat>>, idx: nat)
  {
    && idx >= 1
    && (forall k :: 0 <= k < |slots| && slots[k].Some? ==> slots[k].value < idx)
    && (idx == 1 || Some(idx - 1) in slots)
  }

  /** 1 + the largest index of an entry shaped `name(N)`, or 1. */
  function IntendedNextIndex(slots: seq<Option<nat>>): (idx: nat)
    ensures IsIntendedNext(slots, idx)
  {
    if |slots| == 0 then 1
    else
      var front := slots[..|slots| - 1];
      assert slots == front + [slots[|slots| - 1]];
      var i := IntendedNextIndex(front);
      match slots[|slots| - 1]
      case None => i
      case Some(n) => if n + 1 > i then n + 1 else i
  }

  function IntendedSlots(listing: seq<string>, name: string): (slots: seq<Option<nat>>)
    ensures |slots| == |listing|
    ensures forall k :: 0 <= k < |listing| ==> slots[k] == IntendedSlot(listing[k], name)
  {
    seq(|listing|, k requires 0 <= k < |listing| => IntendedSlot(listing[k], name))
  }

  /** The collision rule with the suffix it counts equal to the suffix it writes. */
  function FixExistingCorrected(filename: string, listing: seq<string>): (r: Result<string, FixError>)
    ensures r.Failure? <==> '.' !in filename
    ensures r.Failure? ==> r.error == NoExtension
    ensures r.Success? ==>
      var parts := RSplitOnce(filename, '.').value;
      exists idx :: IsIntendedNext(IntendedSlots(listing, parts.0), idx) && r.value == SuffixedName(parts.0, idx, parts.1)
  {
    match RSplitOnce(filename, '.')
    case None => Failure(NoExtension)
    case Some(parts) =>
      var idx := IntendedNextIndex(IntendedSlots(listing, parts.0));
      assert RSplitOnce(filename, '.').value == parts;
      assert exists i :: IsIntendedNext(IntendedSlots(listing, parts.0), i) && SuffixedName(parts.0, idx, parts.1) == SuffixedName(parts.0, i, parts.1);
      Success(SuffixedName(parts.0, idx, parts.1))
  }

  // --------------------------------------------------------------- properties

  /** The name a URL path yields, for the three shapes of path one meets. */
  lemma FilenameFromUrlExamples()
    ensures FilenameFromUrl("/d/f.gz") == Some("f.gz")
    ensures FilenameFromUrl("/d/") == None
    ensures FilenameFromUrl("/d/..") == None
  {
    BasenameAfterSlash("/d", "f.gz");
    assert "/d/f.gz" == "/d" + ['/'] + "f.gz";
    assert "f.gz"[0] !in UrlBlank;
    BasenameAfterSlash("/d", "..");
    assert "/d/.." == "/d" + ['/'] + "..";
  }

  /** With an accepted type and exactly one `filename=` parameter, the name is
      that parameter's value, stripped of blanks and quotes, after its last '/'. */
  lemma DispositionNameIsParamValue(cdisp: string)
    requires ';' in cdisp && IsDispositionType(Split(cdisp, ';')[0])
    requires |FilenameParams(Split(cdisp, ';')[1..])| == 1
    ensures var param := FilenameParams(Split(cdisp, ';')[1..])[0];
      '=' in param &&
      var name := Basename(Strip(ParamValue(param), QuoteBlank));
      FilenameFromDisposition(Some(cdisp)) == Success(if |name| == 0 then None else Some(name))
  {
    ParamHasValue(FilenameParams(Split(cdisp, ';')[1..])[0]);
  }

  /** The collision rule as written hands back a name that is already taken:
      it counts "a (1)" but writes "a(1)". */
  lemma FixExistingReturnsTakenName()
    ensures FilenameFixExisting("a.txt", ["a.txt", "a(1).txt"]) == Success("a(1).txt")
    ensures "a(1).txt" in ["a.txt", "a(1).txt"]
  {
    ShortNameSplits();
    var slots := SlotsOf(["a.txt", "a(1).txt"], "a");
    SlotsOfTakenListing();
    assert NextIndex(slots[..1]) == Success(1);
    assert NextIndex(slots) == Success(1);
    SuffixedShortNameOne();
  }

  lemma SuffixedShortNameOne()
    ensures SuffixedName("a", 1, "txt") == "a(1).txt"
  {
    assert NatToString(1) == "1";
  }

  lemma ShortNameSplits()
    ensures RSplitOnce("a.txt", '.') == Some(("a", "txt"))
  {
    DropAppendedExtension("a", "txt");
    assert "a.txt" == "a" + ['.'] + "txt";
  }

  lemma SlotsOfTakenListing()
    ensures SlotsOf(["a.txt", "a(1).txt"], "a") == [Ignored, Ignored]
  {
    SlotOfBareName();
    SlotOfSuffixedIgnored("a", 1, "txt");
    SuffixedShortNameOne();
  }

  lemma SlotOfBareName()
    ensures SlotOf("a.txt", "a") == Ignored
  {
    ShortNameSplits();
    assert RemoveAll("a", "a") == "";
  }

  /** As written, the rule never counts a name of the shape it writes:
      `name(idx).ext` is ignored for `name`, since what remains once `name`
      is removed holds no space and so cannot start with " (". */
  lemma SlotOfSuffixedIgnored(name: string, idx: nat, ext: string)
    requires '.' !in ext
    ensures SlotOf(SuffixedName(name, idx, ext), name) == Ignored
  {
    var suffix := SuffixedRemainder(name, idx, ext);
    if |suffix| >= 2 {
      assert suffix[0] in suffix;
      assert suffix[..2][0] == suffix[0];
    }
    assert !StartsWith(suffix, " (");
  }

  /** What `name(idx).ext` leaves once its extension and `name` are removed holds no space. */
  lemma SuffixedRemainder(name: string, idx: nat, ext: string) returns (suffix: string)
    requires '.' !in ext
    ensures suffix == RemoveAll(DropExtension(SuffixedName(name, idx, ext)), name)
    ensures ' ' !in suffix
  {
    var tail := "(" + NatToString(idx) + ")";
    var stem := name + tail;
    assert SuffixedName(name, idx, ext) == stem + ['.'] + ext;
    DropAppendedExtension(stem, ext);
    RemoveAllLeading(name, tail);
    NoSpaceInParenthesised(NatToString(idx));
    RemoveAllKeepsOut(tail, name, ' ');
    suffix := RemoveAll(tail, name);
  }

  lemma NoSpaceInParenthesised(digits: string)
    requires AllDigits(digits)
    ensures ' ' !in "(" + digits + ")"
  {
    var t := "(" + digits + ")";
    assert forall k :: 0 <= k < |t| ==> t[k] == '(' || t[k] == ')' || t[k] == digits[k - 1];
  }

  /** Any stem followed by ".txt" loses exactly the ".txt". */
  lemma StemOfTxt(stem: string)
    ensures DropExtension(stem + ".txt") == stem
  {
    DropAppendedExtension(stem, "txt");
    assert stem + ".txt" == stem + ['.'] + "txt";
  }

  /** An entry whose suffix is exactly " ()" makes `int('')` raise. */
  lemma FixExistingEmptyIndexRaises()
    ensures FilenameFixExisting("a.txt", ["a ().txt"]) == Failure(EmptyIndex)
  {
    ShortNameSplits();
    SlotOfEmptyParens();
    assert SlotsOf(["a ().txt"], "a") == [EmptyNumber];
  }

  lemma SlotOfEmptyParens()
    ensures SlotOf("a ().txt", "a") == EmptyNumber
  {
    StemOfTxt("a ()");
    assert "a ()" + ".txt" == "a ().txt";
    SuffixOfEmptyParens();
  }

  lemma SuffixOfEmptyParens()
    ensures RemoveAll("a ()", "a") == " ()"
  {
    assert RemoveAll(")", "a") == ")";
    assert RemoveAll("()", "a") == "()";
    assert RemoveAll(" ()", "a") == " ()";
    assert "a ()"[1..] == " ()";
  }

  /** The corrected rule reads back the index it writes: the name `name(idx).ext`
      occupies slot `idx` of `name`. */
  lemma {:induction false} IntendedSlotOfSuffixed(name: string, idx: nat, ext: string)
    requires '.' !in ext
    ensures IntendedSlot(SuffixedName(name, idx, ext), name) == Some(idx)
  {
    var digits := NatToString(idx);
    var suffix := "(" + digits + ")";
    var stem := name + suffix;
    assert SuffixedName(name, idx, ext) == stem + ['.'] + ext;
    DropAppendedExtension(stem, ext);
    assert stem[..|name|] == name;
    assert stem[|name|..] == suffix;
    assert suffix[1..|suffix| - 1] == digits;
  }

  /** The corrected rule never returns a name present in the listing. */
  lemma FixExistingCorrectedIsFresh(filename: string, listing: seq<string>)
    ensures FixExistingCorrected(filename, listing).Success? ==>
      FixExistingCorrected(filename, listing).value !in listing
  {
    if '.' in filename {
      var (name, ext) := RSplitOnce(filename, '.').value;
      var slots := IntendedSlots(listing, name);
      var idx := IntendedNextIndex(slots);
      var r := SuffixedName(name, idx, ext);
      if r in listing {
        var k :| 0 <= k < |listing| && listing[k] == r;
        IntendedSlotOfSuffixed(name, idx, ext);
        assert false;
      }
    }
  }

  /** The corrected rule on the same listing moves on to the next free number. */
  lemma FixExistingCorrectedExample()
    ensures FixExistingCorrected("a.txt", ["a.txt", "a(1).txt"]) == Success("a(2).txt")
  {
    ShortNameSplits();
    IntendedSlotsOfTakenListing();
    NextAfterOne();
    SuffixedShortNameTwo();
  }

  lemma SuffixedShortNameTwo()
    ensures SuffixedName("a", 2, "txt") == "a(2).txt"
  {
    assert NatToString(2) == "2";
  }

  lemma NextAfterOne()
    ensures IntendedNextIndex([None, Some(1)]) == 2
  {
    var slots := [None, Some(1)];
    assert slots[..1] == [None];
    assert IntendedNextIndex([None]) == 1;
  }

  lemma IntendedSlotsOfTakenListing()
    ensures IntendedSlots(["a.txt", "a(1).txt"], "a") == [None, Some(1)]
  {
    ShortNameSplits();
    assert IntendedSlot("a.txt", "a") == None;
    IntendedSlotOfSuffixed("a", 1, "txt");
    SuffixedShortNameOne();
  }
}
