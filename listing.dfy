/** The LIST wire format. The servers answer `LIST` with one
    `"<name> <size> bytes"` line per catalog entry, joined by newlines; the
    clients split the reply into lines and keep a line only when
    `rsplit(" ", 2)` yields three fields ending in `"bytes"`, storing
    `int(size)` under the name. Both servers share one formatter and both
    clients one parser. */
module Listing {
  import opened Wrappers
  import opened Text
  import opened PyDict
  import Catalog

  /** The name-to-size dict on either side of the wire. */
  type Metadata = Dict<string, int>

  /** `f"{name} {size} bytes"` */
  function FormatEntry(name: string, size: int): string
  {
    name + " " + IntToString(size) + " bytes"
  }

  /** `"\n".join(f"{name} {size} bytes" for name, size in metadata.items())` */
  function FormatListing(catalog: Metadata): string
  {
    Join('\n', EntryLines(catalog))
  }

  /** One formatted line per catalog entry, in catalog order. */
  function EntryLines(catalog: Metadata): (lines: seq<string>)
    ensures |lines| == |catalog|
    ensures forall i :: 0 <= i < |catalog| ==> lines[i] == FormatEntry(catalog[i].0, catalog[i].1)
  {
    seq(|catalog|, i requires 0 <= i < |catalog| => FormatEntry(catalog[i].0, catalog[i].1))
  }

  /** What the client makes of one line of the reply. */
  datatype LineResult =
    | Skipped                        // not three fields, or the last is not "bytes"
    | Entry(name: string, size: int)
    | BadSize(field: string)         // `int(size)` raises, which ends the client

  function ParseEntryLine(line: string): LineResult
  {
    var parts := RSplit2(line);
    if |parts| == 3 && parts[2] == "bytes" then
      match ParseInt(parts[1])
      case None => BadSize(parts[1])
      case Some(n) => Entry(parts[0], n)
    else Skipped
  }

  /** The dict the client builds from the reply lines, starting from `{}`,
      or the first field `int()` rejects. */
  function ParseLines(lines: seq<string>): Result<Metadata, string>
  {
    if lines == [] then Ok([])
    else
      match ParseLines(lines[..|lines| - 1])
      case Err(e) => Err(e)
      case Ok(d) =>
        match ParseEntryLine(lines[|lines| - 1])
        case Skipped => Ok(d)
        case BadSize(f) => Err(f)
        case Entry(name, size) => Ok(Put(d, name, size))
  }

  /** The client's LIST parsing loop over `reply.split("\n")`. */
  method ParseListing(reply: string) returns (r: Result<Metadata, string>)
    ensures r == ParseLines(SplitOn(reply, '\n'))
  {
    var lines := SplitOn(reply, '\n');
    var metadata: Metadata := [];
    for i := 0 to |lines|
      invariant ParseLines(lines[..i]) == Ok(metadata)
    {
      ParseOneMoreLine(lines, i, metadata);
      var parsed := ParseEntryLine(lines[i]);
      match parsed
      case Skipped =>
      case BadSize(f) =>
        ParseLinesKeepsError(lines, i + 1);
        assert lines[..|lines|] == lines;
        return Err(f);
      case Entry(name, size) =>
        metadata := Put(metadata, name, size);
    }
    assert lines[..|lines|] == lines;
    return Ok(metadata);
  }

  lemma ParseOneMoreLine(lines: seq<string>, i: nat, d: Metadata)
    requires i < |lines| && ParseLines(lines[..i]) == Ok(d)
    ensures ParseLines(lines[..i + 1]) == match ParseEntryLine(lines[i])
                                         case Skipped => Ok(d)
                                         case BadSize(f) => Err(f)
                                         case Entry(name, size) => Ok(Put(d, name, size))
  {
    assert lines[..i + 1][..i] == lines[..i];
  }

  lemma {:induction false} ParseLinesKeepsError(lines: seq<string>, k: nat)
    requires k <= |lines| && ParseLines(lines[..k]).Err?
    ensures ParseLines(lines) == ParseLines(lines[..k])
    decreases |lines| - k
  {
    if k < |lines| {
      assert lines[..k + 1][..k] == lines[..k];
      ParseLinesKeepsError(lines, k + 1);
    } else {
      assert lines[..k] == lines;
    }
  }

  /** A line the server writes parses back to its name and size, even when
      the name itself contains spaces. */
  lemma ParseFormattedEntry(name: string, size: int)
    ensures ParseEntryLine(FormatEntry(name, size)) == Entry(name, size)
  {
    var digits := IntToString(size);
    assert ' ' !in digits by {
      assert forall i :: 0 <= i < |digits| ==> digits[i] != ' ';
    }
    assert FormatEntry(name, size) == name + " " + digits + " " + "bytes";
    RSplit2OfFields(name, digits, "bytes");
    ParseIntOfString(size);
  }

  /** The client's reading of each reply line. */
  function LineResults(lines: seq<string>): (rs: seq<LineResult>)
    ensures |rs| == |lines| && forall i :: 0 <= i < |lines| ==> rs[i] == ParseEntryLine(lines[i])
  {
    seq(|lines|, i requires 0 <= i < |lines| => ParseEntryLine(lines[i]))
  }

  /** The `(name, size)` of every kept line, in order. */
  function KeptEntries(rs: seq<LineResult>): seq<(string, int)>
  {
    if rs == [] then []
    else
      var p := KeptEntries(rs[..|rs| - 1]);
      match rs[|rs| - 1]
      case Entry(name, size) => p + [(name, size)]
      case _ => p
  }

  /** Unless some size field is rejected, the client keeps exactly the lines
      that split into a name, a size and "bytes", a later line for a name
      overrides an earlier one, and the names stay in order of first
      appearance (the properties of `FromEntries`). */
  lemma {:induction false} ParseLinesContents(lines: seq<string>)
    requires forall i :: 0 <= i < |lines| ==> !ParseEntryLine(lines[i]).BadSize?
    ensures ParseLines(lines) == Ok(FromEntries(KeptEntries(LineResults(lines))))
  {
    if lines != [] {
      var p := lines[..|lines| - 1];
      var r := ParseEntryLine(lines[|lines| - 1]);
      assert forall i :: 0 <= i < |p| ==> p[i] == lines[i];
      ParseLinesContents(p);
      ParseLinesLast(lines, p, r);
      var rs := LineResults(lines);
      assert rs[..|p|] == LineResults(p) && rs[|p|] == r;
      var kept := KeptEntries(LineResults(p));
      KeptEntriesLast(rs);
      if r.Entry? {
        assert (kept + [(r.name, r.size)])[..|kept|] == kept;
      }
    }
  }

  lemma ParseLinesLast(lines: seq<string>, p: seq<string>, r: LineResult)
    requires lines != [] && p == lines[..|lines| - 1] && r == ParseEntryLine(lines[|lines| - 1]) && !r.BadSize?
    ensures ParseLines(lines) == match ParseLines(p)
                                 case Err(e) => Err(e)
                                 case Ok(d) => if r.Entry? then Ok(Put(d, r.name, r.size)) else Ok(d)
  {
  }

  lemma KeptEntriesLast(rs: seq<LineResult>)
    requires rs != []
    ensures KeptEntries(rs) == KeptEntries(rs[..|rs| - 1])
              + if rs[|rs| - 1].Entry? then [(rs[|rs| - 1].name, rs[|rs| - 1].size)] else []
  {
  }

  lemma {:induction false} KeptAllEntries(rs: seq<LineResult>, catalog: Metadata)
    requires |rs| == |catalog|
    requires forall i :: 0 <= i < |rs| ==> rs[i] == Entry(catalog[i].0, catalog[i].1)
    ensures KeptEntries(rs) == catalog
  {
    if rs != [] {
      var n := |rs| - 1;
      KeptAllEntries(rs[..n], catalog[..n]);
      assert catalog[..n] + [catalog[n]] == catalog;
    }
  }

  lemma EmptyListing()
    ensures ParseLines(SplitOn(FormatListing([]), '\n')) == Ok([])
  {
    assert FormatListing([]) == "";
    assert SplitOn("", '\n') == [""];
    assert RSplit2("") == [""];
    assert ParseEntryLine("") == Skipped;
    assert [""][..0] == [];
  }

  lemma FormatEntryHasNoNewline(name: string, size: int)
    requires '\n' !in name
    ensures '\n' !in FormatEntry(name, size)
  {
    var digits := IntToString(size);
    assert IsSpace('\n');
    assert '\n' !in digits;
    var tail := " " + digits + " bytes";
    assert '\n' !in tail;
    assert FormatEntry(name, size) == name + tail;
  }

  lemma EntryLinesHaveNoNewline(catalog: Metadata)
    requires forall i :: 0 <= i < |catalog| ==> '\n' !in catalog[i].0
    ensures forall i :: 0 <= i < |catalog| ==> '\n' !in EntryLines(catalog)[i]
  {
    forall i | 0 <= i < |catalog| ensures '\n' !in EntryLines(catalog)[i] {
      FormatEntryHasNoNewline(catalog[i].0, catalog[i].1);
    }
  }

  lemma EntryLinesParse(catalog: Metadata)
    ensures forall i :: 0 <= i < |catalog| ==> LineResults(EntryLines(catalog))[i] == Entry(catalog[i].0, catalog[i].1)
  {
    forall i | 0 <= i < |catalog| ensures LineResults(EntryLines(catalog))[i] == Entry(catalog[i].0, catalog[i].1) {
      ParseFormattedEntry(catalog[i].0, catalog[i].1);
    }
  }

  /** What the server sends for a catalog, the client parses back into the
      same catalog, same order, whenever no name holds a newline. */
  lemma ListingRoundTrip(catalog: Metadata)
    requires UniqueKeys(catalog)
    requires forall i :: 0 <= i < |catalog| ==> '\n' !in catalog[i].0
    ensures ParseLines(SplitOn(FormatListing(catalog), '\n')) == Ok(catalog)
  {
    if catalog == [] {
      EmptyListing();
    } else {
      var lines := EntryLines(catalog);
      EntryLinesHaveNoNewline(catalog);
      SplitOnJoin(lines, '\n');
      EntryLinesParse(catalog);
      ParseLinesContents(lines);
      KeptAllEntries(LineResults(lines), catalog);
      FromEntriesOfDict(catalog);
    }
  }

  /** Every catalog a server can load goes over LIST unchanged. */
  lemma LoadedCatalogRoundTrip(lines: seq<string>)
    requires Catalog.Load(lines).Ok?
    ensures ParseLines(SplitOn(FormatListing(Catalog.Load(lines).value), '\n')) == Ok(Catalog.Load(lines).value)
  {
    var d := Catalog.Load(lines).value;
    Catalog.LoadContents(lines);
    Catalog.LoadNamesHaveNoSpace(lines);
    assert IsSpace('\n');
    ListingRoundTrip(d);
  }
}
