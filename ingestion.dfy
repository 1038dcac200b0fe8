/**
 * Reading a table from the lines of a file: every line is stripped, blank
 * lines are dropped, and the rest are decoded with the scheme the decoder name
 * selects. Opening and iterating the file is left to the caller, who passes
 * its lines.
 */
module Ingestion {
  import opened Common
  import opened PyText
  import opened Encoders

  /** `[l.strip() for l in lines if l.strip()]`. */
  function NonBlankLines(fileLines: seq<string>): (lines: seq<string>)
    ensures |lines| <= |fileLines|
  {
    if fileLines == [] then []
    else
      var t := Strip(fileLines[0]);
      (if t != [] then [t] else []) + NonBlankLines(fileLines[1..])
  }

  /** The scheme a decoder name selects: the four lower-case names, or no name at all for plain text. */
  function SchemeFor(encoding: Option<string>): (r: Option<Scheme>)
    ensures r.Some? ==> SchemeName(r.value) == encoding
  {
    match encoding
    case None => Some(Plain)
    case Some(name) =>
      if name == "base64" then Some(Base64)
      else if name == "asciihex" then Some(AsciiHex)
      else if name == "binary" then Some(Binary)
      else if name == "url" then Some(Url)
      else None
  }

  /** The name that selects each scheme; plain text is what no name selects. */
  function SchemeName(scheme: Scheme): Option<string> {
    match scheme
    case Base64 => Some("base64")
    case AsciiHex => Some("asciihex")
    case Binary => Some("binary")
    case Url => Some("url")
    case Plain => None
  }

  /** `get_sequence`: the non-blank lines decoded with the named scheme, or a bad-encoder failure. */
  function GetSequence(fileLines: seq<string>, encoding: Option<string>, lib: LibraryCodecs): (r: Result<Table>)
    ensures SchemeFor(encoding).None? ==> r == Err(EncoderException(BadEncoderMsg))
    ensures r.Ok? ==> |r.value| <= |fileLines|
  {
    var lines := NonBlankLines(fileLines);
    match SchemeFor(encoding)
    case None => Err(EncoderException(BadEncoderMsg))
    case Some(scheme) => DecodeAll(lines, scheme, lib)
  }

  // ---------------------------------------------------------------- the line filter

  /** Filtering a concatenation filters each part: the kept lines stay in file order. */
  lemma {:induction false} NonBlankLinesConcat(a: seq<string>, b: seq<string>)
    ensures NonBlankLines(a + b) == NonBlankLines(a) + NonBlankLines(b)
  {
    if a != [] {
      assert (a + b)[0] == a[0] && (a + b)[1..] == a[1..] + b;
      NonBlankLinesConcat(a[1..], b);
      var head := if Strip(a[0]) != [] then [Strip(a[0])] else [];
      assert head + (NonBlankLines(a[1..]) + NonBlankLines(b)) == (head + NonBlankLines(a[1..])) + NonBlankLines(b);
    } else {
      assert a + b == b;
    }
  }

  /** One line is kept, stripped, exactly when it is not all whitespace. */
  lemma NonBlankLine(l: string)
    ensures NonBlankLines([l]) == if SpaceBetween(l, 0, |l|, StripSpace) then [] else [Strip(l)]
  {
    StripEnds(l, StripSpace);
    assert [l][1..] == [];
  }

  /** No kept line is empty or has whitespace left at either end, and there are never more than the file had. */
  lemma {:induction false} NonBlankLinesStripped(fileLines: seq<string>)
    ensures |NonBlankLines(fileLines)| <= |fileLines|
    ensures forall k :: 0 <= k < |NonBlankLines(fileLines)| ==>
              var l := NonBlankLines(fileLines)[k];
              l != [] && Strip(l) == l
  {
    if fileLines != [] {
      NonBlankLinesStripped(fileLines[1..]);
      var t := Strip(fileLines[0]);
      if t != [] {
        StripEnds(fileLines[0], StripSpace);
        StripUnchanged(t, StripSpace);
        var rest := NonBlankLines(fileLines[1..]);
        forall k | 1 <= k < |NonBlankLines(fileLines)| ensures NonBlankLines(fileLines)[k] == rest[k - 1] {
        }
      }
    }
  }

  // ---------------------------------------------------------------- choosing the decoder

  /** A name selects a scheme exactly when it is that scheme's name; no other name, `"Base64"` among them, selects anything. */
  lemma SchemeForNames(encoding: Option<string>, scheme: Scheme)
    ensures SchemeFor(encoding) == Some(scheme) <==> encoding == SchemeName(scheme)
    ensures SchemeFor(Some("Base64")) == None
  {
    assert "Base64"[0] != "base64"[0];
  }

  /** An unknown decoder name fails with the bad-encoder message whatever the file holds, an empty file included. */
  lemma UnknownEncoderRejected(fileLines: seq<string>, encoding: Option<string>, lib: LibraryCodecs)
    requires forall scheme: Scheme :: encoding != SchemeName(scheme)
    ensures GetSequence(fileLines, encoding, lib) == Err(EncoderException(BadEncoderMsg))
  {
    if SchemeFor(encoding).Some? {
      SchemeForNames(encoding, SchemeFor(encoding).value);
      assert false;
    }
  }

  /**
   * With a known name, the table is built exactly when every non-blank line
   * decodes, with one row per non-blank line in file order; otherwise the
   * failure is that of the first non-blank line that does not decode.
   */
  lemma GetSequenceDecodesLines(fileLines: seq<string>, scheme: Scheme, lib: LibraryCodecs)
    ensures var r := GetSequence(fileLines, SchemeName(scheme), lib);
            var lines := NonBlankLines(fileLines);
            && (r.Ok? <==> forall k :: 0 <= k < |lines| ==> Decode(scheme, lines[k], lib).Ok?)
            && (r.Ok? ==> |r.value| == |lines| && forall k :: 0 <= k < |lines| ==> r.value[k] == Decode(scheme, lines[k], lib).value)
            && (r.Err? ==> exists j :: && 0 <= j < |lines|
                                      && (forall k :: 0 <= k < j ==> Decode(scheme, lines[k], lib).Ok?)
                                      && Decode(scheme, lines[j], lib).Err?
                                      && r == Err(Decode(scheme, lines[j], lib).error))
  {
    SchemeForNames(SchemeName(scheme), scheme);
    DecodeAllOk(NonBlankLines(fileLines), scheme, lib);
    DecodeAllFirstFailure(NonBlankLines(fileLines), scheme, lib);
  }

  /**
   * When the library decoders fail only with `ValueError`, the bad-encoder
   * failure comes from the decoder name and from nothing else.
   */
  lemma BadEncoderOnlyFromName(fileLines: seq<string>, encoding: Option<string>, lib: LibraryCodecs)
    requires RaisesValueErrorOnly(lib)
    ensures GetSequence(fileLines, encoding, lib) == Err(EncoderException(BadEncoderMsg)) <==> SchemeFor(encoding).None?
  {
    if SchemeFor(encoding).Some? {
      var scheme, lines := SchemeFor(encoding).value, NonBlankLines(fileLines);
      var r := DecodeAll(lines, scheme, lib);
      if r.Err? {
        DecodeAllFirstFailure(lines, scheme, lib);
        var j :| && 0 <= j < |lines|
                 && Decode(scheme, lines[j], lib).Err?
                 && r == Err(Decode(scheme, lines[j], lib).error);
        DecodeFailureKinds(scheme, lines[j], lib);
        assert |BadEncoderMsg| != |BadLengthMsg| && BadEncoderMsg[8] != BadCharsMsg[8];
      }
    }
  }
}
