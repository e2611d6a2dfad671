/** The server's file catalog (`load_file_metadata`, the same code in both
    servers): one `"<name> <size><unit>"` record per line, the unit matched
    case-insensitively, only megabytes and gigabytes accepted. A failing line
    stops the server before it binds its socket. The file arrives as its
    sequence of lines. */
module Catalog {
  import opened Wrappers
  import opened Text
  import opened PyDict
  import Seqs

  const MIB: int := 1024 * 1024
  const GIB: int := 1024 * 1024 * 1024

  /** The `ValueError`s that `load_file_metadata` can raise. */
  datatype ConfigError =
    | WrongFieldCount(line: string)    // unpacking `split()` into two names fails
    | BadNumber(token: string)         // `int()` rejects what is left of the token
    | UnsupportedUnit(token: string)   // the token holds neither "mb" nor "gb"

  type Catalog = Dict<string, int>

  /** The size in bytes of one lowercased size token. */
  function ParseSize(token: string): (r: Result<int, ConfigError>)
    ensures r.Ok? ==> Contains(Lower(token), "mb") || Contains(Lower(token), "gb")
    ensures !Contains(Lower(token), "mb") && !Contains(Lower(token), "gb") ==> r == Err(UnsupportedUnit(Lower(token)))
  {
    var t := Lower(token);
    if Contains(t, "mb") then
      match ParseInt(RemoveAll(t, "mb"))
      case None => Err(BadNumber(t))
      case Some(n) => Ok(n * MIB)
    else if Contains(t, "gb") then
      match ParseInt(RemoveAll(t, "gb"))
      case None => Err(BadNumber(t))
      case Some(n) => Ok(n * GIB)
    else Err(UnsupportedUnit(t))
  }

  /** One catalog record: a name and a size token, nothing else. */
  function ParseLine(line: string): Result<(string, int), ConfigError>
  {
    var fields := Words(line);
    if |fields| != 2 then Err(WrongFieldCount(line))
    else
      match ParseSize(fields[1])
      case Err(e) => Err(e)
      case Ok(size) => Ok((fields[0], size))
  }

  /** The catalog built from `lines`, or the error of the first bad line. */
  function Load(lines: seq<string>): Result<Catalog, ConfigError>
  {
    if lines == [] then Ok([])
    else
      match Load(lines[..|lines| - 1])
      case Err(e) => Err(e)
      case Ok(d) =>
        match ParseLine(lines[|lines| - 1])
        case Err(e) => Err(e)
        case Ok(entry) => Ok(Put(d, entry.0, entry.1))
  }

  /** `load_file_metadata`: reads the records in order into a dict. */
  method LoadFileMetadata(lines: seq<string>) returns (r: Result<Catalog, ConfigError>)
    ensures r == Load(lines)
  {
    var metadata: Catalog := [];
    for i := 0 to |lines|
      invariant Load(lines[..i]) == Ok(metadata)
    {
      assert lines[..i + 1][..i] == lines[..i];
      var entry := ParseLine(lines[i]);
      if entry.Err? {
        assert Load(lines[..i + 1]) == Err(entry.error);
        LoadKeepsFirstError(lines, i + 1);
        assert lines[..|lines|] == lines;
        return Err(entry.error);
      }
      metadata := Put(metadata, entry.value.0, entry.value.1);
    }
    assert lines[..|lines|] == lines;
    return Ok(metadata);
  }

  // ---------------------------------------------------------------------
  // size tokens

  lemma {:induction false} NotContainsByFirst(s: string, pat: string)
    requires pat != [] && pat[0] !in s
    ensures !Contains(s, pat)
  {
    if s != [] {
      NotContainsByFirst(s[1..], pat);
    }
  }

  lemma {:induction false} RemoveAllAfter(x: string, pat: string)
    requires pat != [] && pat[0] !in x
    ensures RemoveAll(x + pat, pat) == x
  {
    if x == [] {
      assert (x + pat)[|pat|..] == [];
    } else {
      assert (x + pat)[1..] == x[1..] + pat;
      RemoveAllAfter(x[1..], pat);
      assert [x[0]] + x[1..] == x;
    }
  }

  lemma ContainsAfter(x: string, pat: string)
    ensures Contains(x + pat, pat)
    decreases |x|
  {
    if x != [] {
      assert (x + pat)[1..] == x[1..] + pat;
      ContainsAfter(x[1..], pat);
    } else {
      assert (x + pat)[..|pat|] == pat;
    }
  }

  predicate IsUnit(unit: string, lower: string)
  {
    |unit| == 2 && Lower(unit) == lower
  }

  /** A number followed by "mb" or "gb" in any mix of case gives that many
      mebibytes or gibibytes, negative numbers included. */
  lemma {:induction false} ParseSizeOfUnit(n: int, unit: string)
    requires IsUnit(unit, "mb") || IsUnit(unit, "gb")
    ensures IsUnit(unit, "mb") ==> ParseSize(IntToString(n) + unit) == Ok(n * MIB)
    ensures IsUnit(unit, "gb") ==> ParseSize(IntToString(n) + unit) == Ok(n * GIB)
  {
    var digits := IntToString(n);
    var token := digits + unit;
    var lower := if IsUnit(unit, "mb") then "mb" else "gb";
    assert forall i :: 0 <= i < |digits| ==> digits[i] == '-' || IsDigit(digits[i]);
    LowerOfNumberThenUnit(digits, unit, lower);
    ParseIntOfString(n);
    if lower == "mb" {
      SizeInMegabytes(token, digits, n);
    } else {
      SizeInGigabytes(token, digits, n);
    }
  }

  lemma LowerOfNumberThenUnit(digits: string, unit: string, lower: string)
    requires forall i :: 0 <= i < |digits| ==> digits[i] == '-' || IsDigit(digits[i])
    requires IsUnit(unit, lower)
    ensures Lower(digits + unit) == digits + lower
  {
    assert forall i :: 0 <= i < |digits| ==> LowerChar(digits[i]) == digits[i];
  }

  lemma SizeInMegabytes(token: string, digits: string, n: int)
    requires forall i :: 0 <= i < |digits| ==> digits[i] == '-' || IsDigit(digits[i])
    requires Lower(token) == digits + "mb" && ParseInt(digits) == Some(n)
    ensures ParseSize(token) == Ok(n * MIB)
  {
    assert 'm' !in digits;
    ContainsAfter(digits, "mb");
    RemoveAllAfter(digits, "mb");
  }

  lemma SizeInGigabytes(token: string, digits: string, n: int)
    requires forall i :: 0 <= i < |digits| ==> digits[i] == '-' || IsDigit(digits[i])
    requires Lower(token) == digits + "gb" && ParseInt(digits) == Some(n)
    ensures ParseSize(token) == Ok(n * GIB)
  {
    assert 'm' !in digits && 'g' !in digits;
    assert 'm' !in digits + "gb";
    NotContainsByFirst(digits + "gb", "mb");
    ContainsAfter(digits, "gb");
    RemoveAllAfter(digits, "gb");
  }

  /** "report 2MB" and "movie 1GB" as written in a catalog. */
  lemma SizeExamples()
    ensures ParseSize("2MB") == Ok(2 * 1024 * 1024)
    ensures ParseSize("1GB") == Ok(1024 * 1024 * 1024)
  {
    ParseSizeOfUnit(2, "MB");
    assert IntToString(2) + "MB" == "2MB";
    ParseSizeOfUnit(1, "GB");
    assert IntToString(1) + "GB" == "1GB";
  }

  /** Kilobytes and plain bytes are refused, although the catalog format
      lists them as units. */
  lemma SmallUnitsRefused()
    ensures ParseSize("512KB") == Err(UnsupportedUnit("512kb"))
    ensures ParseSize("100B") == Err(UnsupportedUnit("100b"))
  {
    UnitRefused("512KB", "512kb");
    UnitRefused("100B", "100b");
  }

  lemma UnitRefused(token: string, lower: string)
    requires |token| == |lower| && forall i :: 0 <= i < |token| ==> LowerChar(token[i]) == lower[i]
    requires 'm' !in lower && 'g' !in lower
    ensures ParseSize(token) == Err(UnsupportedUnit(lower))
  {
    assert Lower(token) == lower;
    NotContainsByFirst(lower, "mb");
    NotContainsByFirst(lower, "gb");
  }

  // ---------------------------------------------------------------------
  // the whole catalog

  /** Loading succeeds exactly when every line parses. */
  lemma {:induction false} LoadOkIff(lines: seq<string>)
    ensures Load(lines).Ok? <==> forall i :: 0 <= i < |lines| ==> ParseLine(lines[i]).Ok?
  {
    if lines != [] {
      var p := lines[..|lines| - 1];
      LoadOkIff(p);
      LoadLast(lines);
      Seqs.AllOfSnoc(lines, p, line => ParseLine(line).Ok?);
    }
  }

  /** One more line loads exactly when the lines before it do and it parses. */
  lemma LoadLast(lines: seq<string>)
    requires lines != []
    ensures Load(lines).Ok? <==> Load(lines[..|lines| - 1]).Ok? && ParseLine(lines[|lines| - 1]).Ok?
  {
  }

  /** A failed load reports the error of the first bad line. */
  lemma {:induction false} LoadFirstError(lines: seq<string>)
    requires Load(lines).Err?
    ensures exists i :: 0 <= i < |lines| && ParseLine(lines[i]) == Err(Load(lines).error)
                        && forall j :: 0 <= j < i ==> ParseLine(lines[j]).Ok?
  {
    var p := lines[..|lines| - 1];
    assert forall i :: 0 <= i < |p| ==> p[i] == lines[i];
    if Load(p).Err? {
      LoadFirstError(p);
      var i :| 0 <= i < |p| && ParseLine(p[i]) == Err(Load(p).error)
               && forall j :: 0 <= j < i ==> ParseLine(p[j]).Ok?;
      assert ParseLine(lines[i]) == Err(Load(lines).error);
    } else {
      LoadOkIff(p);
      assert ParseLine(lines[|p|]) == Err(Load(lines).error);
    }
  }

  lemma {:induction false} LoadKeepsFirstError(lines: seq<string>, k: nat)
    requires k <= |lines| && Load(lines[..k]).Err?
    ensures Load(lines) == Load(lines[..k])
    decreases |lines| - k
  {
    if k < |lines| {
      assert lines[..k + 1][..k] == lines[..k];
      LoadKeepsFirstError(lines, k + 1);
    } else {
      assert lines[..k] == lines;
    }
  }

  /** The parsed records of lines that all parse. */
  function Entries(lines: seq<string>): (es: seq<(string, int)>)
    requires forall i :: 0 <= i < |lines| ==> ParseLine(lines[i]).Ok?
    ensures |es| == |lines|
  {
    seq(|lines|, i requires 0 <= i < |lines| && ParseLine(lines[i]).Ok? => ParseLine(lines[i]).value)
  }

  /** A loaded catalog is the dict built from the records in file order: each
      name once, in order of first appearance, with the size of the LAST record
      that names it. */
  lemma {:induction false} LoadContents(lines: seq<string>)
    requires Load(lines).Ok?
    ensures forall i :: 0 <= i < |lines| ==> ParseLine(lines[i]).Ok?
    ensures Load(lines).value == FromEntries(Entries(lines))
    ensures UniqueKeys(Load(lines).value)
    ensures Keys(Load(lines).value) == FirstAppearance(Keys(Entries(lines)))
    ensures forall name :: Get(Load(lines).value, name) == LastValue(Entries(lines), name)
  {
    LoadOkIff(lines);
    if lines != [] {
      var p := lines[..|lines| - 1];
      assert forall i :: 0 <= i < |p| ==> p[i] == lines[i];
      LoadContents(p);
      var es := Entries(lines);
      assert Entries(p) == es[..|es| - 1];
    }
    FromEntriesContents(Entries(lines));
  }

  /** Catalog names come out of `split()`, so they hold no whitespace. */
  lemma LoadNamesHaveNoSpace(lines: seq<string>)
    requires Load(lines).Ok?
    ensures forall i :: 0 <= i < |Load(lines).value| ==> NoSpace(Load(lines).value[i].0)
  {
    LoadContents(lines);
    var d := Load(lines).value;
    var es := Entries(lines);
    forall i | 0 <= i < |d| ensures NoSpace(d[i].0) {
      assert d[i].0 in Keys(d);
      FirstAppearanceMembers(Keys(es), d[i].0);
      var j :| 0 <= j < |es| && Keys(es)[j] == d[i].0;
      assert Words(lines[j])[0] == es[j].0;
    }
  }
}
