/** Application settings: the CORS origin list read from one
    comma-separated string. */
module Config {
  import opened Common
  import opened Text

  /** The setting as it arrives: a string from the environment, or an
      already-built list. */
  datatype CorsSetting = FromText(text: string) | FromList(origins: seq<string>)

  /** The default: the two local development servers. */
  const DefaultCorsOrigins: string := "http://localhost:3000,http://localhost:5173"

  /** An entry of the parsed list: nonempty, with no comma and no
      surrounding whitespace. */
  predicate CleanOrigin(o: string) {
    o != [] && ',' !in o && !IsSpace(o[0]) && !IsSpace(o[|o| - 1])
  }

  /** The stripped pieces, blank ones dropped, in order. */
  function StrippedPieces(pieces: seq<string>): (r: seq<string>)
    ensures |r| <= |pieces|
  {
    if pieces == [] then []
    else
      var last := Strip(pieces[|pieces| - 1]);
      StrippedPieces(pieces[..|pieces| - 1]) + (if last != "" then [last] else [])
  }

  /** Every kept piece is a stripped nonempty input piece. */
  lemma {:induction false} StrippedPiecesSound(pieces: seq<string>)
    ensures forall o :: o in StrippedPieces(pieces) ==> o != [] && exists p :: p in pieces && o == Strip(p)
  {
    if pieces != [] {
      var init, last := pieces[..|pieces| - 1], pieces[|pieces| - 1];
      var before := StrippedPieces(init);
      var added := if Strip(last) != "" then [Strip(last)] else [];
      assert StrippedPieces(pieces) == before + added;
      StrippedPiecesSound(init);
      forall o | o in before + added ensures o != [] && exists p :: p in pieces && o == Strip(p) {
        if o in before {
          var p :| p in init && o == Strip(p);
          InPrefix(pieces, |pieces| - 1, p);
        } else {
          assert last == pieces[|pieces| - 1] && o == Strip(last);
        }
      }
    }
  }

  /** Every nonblank input piece is kept, stripped. */
  lemma {:induction false} StrippedPiecesComplete(pieces: seq<string>)
    ensures forall p :: p in pieces && Strip(p) != "" ==> Strip(p) in StrippedPieces(pieces)
  {
    if pieces != [] {
      var init, last := pieces[..|pieces| - 1], pieces[|pieces| - 1];
      var before := StrippedPieces(init);
      var added := if Strip(last) != "" then [Strip(last)] else [];
      assert StrippedPieces(pieces) == before + added;
      forall p | p in pieces ensures p in init || p == last {
        var k :| 0 <= k < |pieces| && pieces[k] == p;
        if k < |init| {
          assert init[k] == p;
        }
      }
      StrippedPiecesComplete(init);
    }
  }

  /** Pieces without commas give clean entries. */
  lemma {:induction false} StrippedPiecesAreClean(pieces: seq<string>)
    requires forall i :: 0 <= i < |pieces| ==> ',' !in pieces[i]
    ensures forall i :: 0 <= i < |StrippedPieces(pieces)| ==> CleanOrigin(StrippedPieces(pieces)[i])
  {
    if pieces != [] {
      var init := pieces[..|pieces| - 1];
      StrippedPiecesAreClean(init);
      StripWithin(pieces[|pieces| - 1]);
    }
  }

  /** Pieces that are already clean come through unchanged. */
  lemma {:induction false} StrippedPiecesClean(pieces: seq<string>)
    requires forall i :: 0 <= i < |pieces| ==> CleanOrigin(pieces[i])
    ensures StrippedPieces(pieces) == pieces
  {
    if pieces != [] {
      var init, last := pieces[..|pieces| - 1], pieces[|pieces| - 1];
      assert Strip(last) == last && last != "" by {
        assert CleanOrigin(last);
        StripStripped(last);
      }
      assert StrippedPieces(init) == init by {
        assert forall i :: 0 <= i < |init| ==> init[i] == pieces[i];
        StrippedPiecesClean(init);
      }
      assert init + [last] == pieces;
    }
  }

  /** `parse_cors_origins`: a string is split at commas, each piece
      stripped and blank pieces dropped; a list is taken as it is. */
  function ParseCorsOrigins(v: CorsSetting): (r: seq<string>)
    ensures v.FromList? ==> r == v.origins
    ensures v.FromText? ==> forall i :: 0 <= i < |r| ==> CleanOrigin(r[i])
  {
    match v
    case FromList(origins) => origins
    case FromText(text) =>
      StrippedPiecesAreClean(Split(text, ','));
      StrippedPieces(Split(text, ','))
  }

  /** Every nonblank comma-separated piece of the string is in the list. */
  lemma NothingLost(text: string, piece: string)
    requires piece in Split(text, ',') && Strip(piece) != ""
    ensures Strip(piece) in ParseCorsOrigins(FromText(text))
  {
    StrippedPiecesComplete(Split(text, ','));
  }

  /** Writing a parsed list back as one comma-separated string and parsing
      it again gives the same list. */
  lemma ParseJoinRoundTrip(origins: seq<string>)
    requires forall i :: 0 <= i < |origins| ==> CleanOrigin(origins[i])
    ensures ParseCorsOrigins(FromText(Join(origins, ","))) == origins
  {
    if origins == [] {
      assert Split("", ',') == [""];
    } else {
      SplitJoin(origins, ',');
      StrippedPiecesClean(origins);
    }
  }

  /** The default parses to the two development servers. */
  lemma DefaultOrigins()
    ensures ParseCorsOrigins(FromText(DefaultCorsOrigins)) == ["http://localhost:3000", "http://localhost:5173"]
  {
    var origins := ["http://localhost:3000", "http://localhost:5173"];
    assert Join(origins, ",") == DefaultCorsOrigins;
    ParseJoinRoundTrip(origins);
  }
}
