/** File-name extraction from a multipart part's Content-Disposition header
    (Controller.getFileName). It reads the `filename` parameter of RFC 6266 section 4.1 in a
    simplified way that does not follow the RFC's grammar: quotes are removed rather than
    parsed, a ';' inside a quoted value splits it, and a `filename*` parameter matches too. */
module FileNames {
  import opened Sequences
  import opened JavaStrings

  /** The test applied to each ';'-separated piece: once trimmed, it starts with "filename". */
  predicate NamesFile(cd: string)
  {
    StartsWith(Trim(cd), "filename")
  }

  /** The value taken from a qualifying piece: the text after its first '=' (the whole piece
      when it has none, as indexOf yields -1), trimmed, with every '"' removed. */
  function FileNameValue(cd: string): (r: string)
    ensures '"' !in r
    ensures '=' !in cd ==> r == RemoveAll(Trim(cd), '"')
  {
    RemoveAll(Trim(cd[IndexOf(cd, '=') + 1..]), '"')
  }

  /** With an '=' present, the value is what follows the first one, trimmed and unquoted. */
  lemma ValueAfterFirstEquals(cd: string, k: nat)
    requires k < |cd| && cd[k] == '=' && '=' !in cd[..k]
    ensures FileNameValue(cd) == RemoveAll(Trim(cd[k + 1..]), '"')
  {
    IndexOfFirst(cd, '=', k);
  }

  /** What getFileName returns for a present header: null when no piece names a file,
      otherwise the value of the first piece that does. */
  function FileNameOf(header: string): (r: JString)
    ensures var segs := Split(header, ';');
      r.Null? <==> forall i :: 0 <= i < |segs| ==> !NamesFile(segs[i])
    ensures r.Str? ==> '"' !in r.value
  {
    var segs := Split(header, ';');
    match FirstIndex(segs, NamesFile)
    case None => Null
    case Some(i) => Str(FileNameValue(segs[i]))
  }

  /** The value comes from the first piece that names a file. */
  lemma FirstNamingPieceWins(header: string, i: nat)
    requires var segs := Split(header, ';'); i < |segs| && NamesFile(segs[i])
    requires var segs := Split(header, ';'); forall j :: 0 <= j < i ==> !NamesFile(segs[j])
    ensures FileNameOf(header) == Str(FileNameValue(Split(header, ';')[i]))
  {
    FirstIndexUnique(Split(header, ';'), NamesFile, i);
  }

  /** For a header made of ';'-free pieces (the last one non-empty when there are several),
      split gives back exactly those pieces, so the name is the value of the first piece that
      names a file, and null when none does. */
  lemma FileNameOfPieces(xs: seq<string>)
    requires |xs| >= 1 && forall i :: 0 <= i < |xs| ==> ';' !in xs[i]
    requires |xs| == 1 || xs[|xs| - 1] != []
    ensures Split(Join(xs, ';'), ';') == xs
    ensures FileNameOf(Join(xs, ';')) ==
      match FirstIndex(xs, NamesFile)
      case None => Null
      case Some(i) => Str(FileNameValue(xs[i]))
  {
    SegmentsOfJoin(xs, ';');
    if |xs| == 1 {
      assert Join(xs, ';') == xs[0];
    } else {
      var front := Join(xs[..|xs| - 1], ';');
      assert Join(xs, ';') == front + [';'] + xs[|xs| - 1];
      assert Join(xs, ';')[|front|] == ';';
    }
  }

  /** The usual multipart header, such as `form-data; name="file"; filename="a b.txt"`, yields
      the quoted name without its quotes (`a b.txt`); the spaces inside the quotes survive. */
  lemma QuotedFileName(field: string, name: string)
    requires ';' !in field && ';' !in name && '"' !in name
    ensures FileNameOf("form-data; name=\"" + field + "\"; filename=\"" + name + "\"") == Str(name)
  {
    var p0 := "form-data";
    var p1 := " name=\"" + field + "\"";
    var p2 := " filename=\"" + name + "\"";
    assert "form-data; name=\"" + field + "\"; filename=\"" + name + "\"" == p0 + ";" + p1 + ";" + p2;
    QuotedFileNameOfPieces(field, name, p0, p1, p2);
  }

  lemma QuotedFileNameOfPieces(field: string, name: string, p0: string, p1: string, p2: string)
    requires ';' !in field && ';' !in name && '"' !in name
    requires p0 == "form-data"
    requires p1 == " name=\"" + field + "\""
    requires p2 == " filename=\"" + name + "\""
    ensures FileNameOf(p0 + ";" + p1 + ";" + p2) == Str(name)
  {
    FirstTwoPieces(field, p0, p1);
    LastPiece(name, p2);
    ThirdPieceNamesFile(p0, p1, p2);
  }

  /** Three ';'-free pieces of which only the third names a file yield its value. */
  lemma ThirdPieceNamesFile(p0: string, p1: string, p2: string)
    requires ';' !in p0 && ';' !in p1 && ';' !in p2 && p2 != []
    requires !NamesFile(p0) && !NamesFile(p1) && NamesFile(p2)
    ensures FileNameOf(p0 + ";" + p1 + ";" + p2) == Str(FileNameValue(p2))
  {
    var xs := [p0, p1, p2];
    assert p0 + ";" + p1 + ";" + p2 == Join(xs, ';') by {
      assert xs[..2][..1] == [p0];
      assert xs[..2] == [p0, p1];
      assert Join(xs[..2], ';') == p0 + ";" + p1;
    }
    FileNameOfPieces(xs);
    FirstIndexUnique(xs, NamesFile, 2);
  }

  lemma FirstTwoPieces(field: string, p0: string, p1: string)
    requires ';' !in field
    requires p0 == "form-data"
    requires p1 == " name=\"" + field + "\""
    ensures ';' !in p0 && ';' !in p1 && !NamesFile(p0) && !NamesFile(p1)
  {
    FormDataNamesNoFile(p0);
    NameFieldNamesNoFile(field, p1);
    QuotedPieceHasNoSemicolon(" name=\"", field, p1);
  }

  lemma LastPiece(name: string, p2: string)
    requires ';' !in name && '"' !in name
    requires p2 == " filename=\"" + name + "\""
    ensures ';' !in p2 && p2 != [] && NamesFile(p2) && FileNameValue(p2) == name
  {
    FileNameFieldNamesFile(name, p2);
    FileNameFieldValue(name, p2);
    QuotedPieceHasNoSemicolon(" filename=\"", name, p2);
  }

  lemma FormDataNamesNoFile(p: string)
    requires p == "form-data"
    ensures !NamesFile(p)
  {
    TrimUntouched(p);
    assert p[1] != "filename"[1];
  }

  lemma NameFieldNamesNoFile(field: string, p: string)
    requires p == " name=\"" + field + "\""
    ensures !NamesFile(p)
  {
    var q := "name=\"" + field + "\"";
    assert p == [' '] + q;
    assert q[0] == 'n' && q[|q| - 1] == '"';
    LeadingSpaceIgnored(q);
    NamesFileUntrimmed(q);
    assert q[1] != "filename"[1];
  }

  lemma FileNameFieldNamesFile(name: string, p: string)
    requires p == " filename=\"" + name + "\""
    ensures NamesFile(p)
  {
    var q := "filename=\"" + name + "\"";
    assert p == [' '] + q;
    assert q[0] == 'f' && q[|q| - 1] == '"';
    assert q[..8] == "filename";
    LeadingSpaceIgnored(q);
    NamesFileUntrimmed(q);
  }

  lemma FileNameFieldValue(name: string, p: string)
    requires '"' !in name
    requires p == " filename=\"" + name + "\""
    ensures FileNameValue(p) == name
  {
    var quoted := "\"" + name + "\"";
    assert FileNameValue(p) == RemoveAll(Trim(quoted), '"') by {
      assert p == " filename=" + quoted;
      assert p[..9] == " filename";
      assert p[10..] == quoted;
      ValueAfterFirstEquals(p, 9);
    }
    assert RemoveAll(Trim(quoted), '"') == name by {
      TrimUntouched(quoted);
      RemoveAllAppend("\"" + name, "\"", '"');
      RemoveAllAppend("\"", name, '"');
    }
  }

  lemma LeadingSpaceIgnored(q: string)
    ensures NamesFile([' '] + q) == NamesFile(q)
  {
    TrimAfterLeading(' ', q);
  }

  lemma NamesFileUntrimmed(q: string)
    requires q != [] && !IsTrimmed(q[0]) && !IsTrimmed(q[|q| - 1])
    ensures NamesFile(q) == StartsWith(q, "filename")
  {
    TrimUntouched(q);
  }

  lemma QuotedPieceHasNoSemicolon(key: string, value: string, p: string)
    requires key == " name=\"" || key == " filename=\""
    requires ';' !in value
    requires p == key + value + "\""
    ensures ';' !in p
  {
    assert ';' !in key;
  }
}
