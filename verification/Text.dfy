/** The string operations of the Go standard library that the modelled code leans on. */
module Text {

  /** White space as `unicode.IsSpace` has it. */
  predicate IsSpace(c: char) {
    || '\t' <= c <= '\r' || c == ' ' || c == '\U{85}' || c == '\U{A0}' || c == '\U{1680}'
    || '\U{2000}' <= c <= '\U{200A}' || c == '\U{2028}' || c == '\U{2029}' || c == '\U{202F}'
    || c == '\U{205F}' || c == '\U{3000}'
  }

  /** No character that `cut` selects at either end. */
  predicate Bare(s: string, cut: char -> bool) {
    s == "" || (!cut(s[0]) && !cut(s[|s| - 1]))
  }

  function Trim(s: string, cut: char -> bool): (r: string)
    ensures Bare(r, cut)
    ensures Bare(s, cut) ==> r == s
  {
    if s != "" && cut(s[0]) then Trim(s[1..], cut)
    else if s != "" && cut(s[|s| - 1]) then Trim(s[..|s| - 1], cut)
    else s
  }

  lemma {:induction false} TrimShrinks(s: string, cut: char -> bool)
    ensures forall c | c in Trim(s, cut) :: c in s
  {
    if s != "" && cut(s[0]) {
      TrimShrinks(s[1..], cut);
    } else if s != "" && cut(s[|s| - 1]) {
      TrimShrinks(s[..|s| - 1], cut);
    }
  }

  lemma {:induction false} TrimShorter(s: string, cut: char -> bool)
    ensures |Trim(s, cut)| <= |s|
  {
    if s != "" && cut(s[0]) {
      TrimShorter(s[1..], cut);
    } else if s != "" && cut(s[|s| - 1]) {
      TrimShorter(s[..|s| - 1], cut);
    }
  }

  /** Trimming takes off what is cut at both ends and nothing else. */
  lemma {:induction false} TrimExactly(head: string, s: string, tail: string, cut: char -> bool)
    requires (forall c | c in head :: cut(c)) && (forall c | c in tail :: cut(c)) && Bare(s, cut)
    ensures Trim(head + s + tail, cut) == s
    decreases |head| + |tail|
  {
    var whole := head + s + tail;
    if head != "" {
      assert whole[1..] == head[1..] + s + tail && whole[0] == head[0] && head[0] in head;
      TrimExactly(head[1..], s, tail, cut);
    } else if tail != "" {
      var rest := tail[..|tail| - 1];
      assert whole[..|whole| - 1] == head + s + rest && whole[|whole| - 1] == tail[|tail| - 1];
      assert tail[|tail| - 1] in tail && forall c | c in rest :: c in tail;
      TrimExactly(head, s, rest, cut);
      if s == "" {
        assert whole[1..] == head + s + tail[1..] && whole[0] == tail[0] && tail[0] in tail;
        TrimExactly(head, s, tail[1..], cut);
      }
    } else {
      assert whole == s;
    }
  }

  function TrimSpace(s: string): string {
    Trim(s, IsSpace)
  }

  function Is(sep: char): char -> bool {
    c => c == sep
  }

  function Split(s: string, sep: char): (r: seq<string>)
    ensures r != []
  {
    if s == "" then [""]
    else
      var rest := Split(s[1..], sep);
      if s[0] == sep then [""] + rest else [[s[0]] + rest[0]] + rest[1..]
  }

  function Join(fields: seq<string>, sep: char): string {
    if fields == [] then ""
    else if |fields| == 1 then fields[0]
    else fields[0] + [sep] + Join(fields[1..], sep)
  }

  /** How the model list (`,`) and the key list (newline) of a channel are read back from their text. */
  function Fields(text: string, sep: char): seq<string> {
    if text == "" then [] else Split(Trim(text, Is(sep)), sep)
  }

  predicate Joinable(fields: seq<string>, sep: char) {
    fields == [] ||
    ((forall f | f in fields :: sep !in f) && fields[0] != "" && fields[|fields| - 1] != "")
  }

  lemma {:induction false} SplitPieces(s: string, sep: char)
    ensures forall f | f in Split(s, sep) :: sep !in f
    ensures s != "" && s[0] != sep ==> Split(s, sep)[0] != ""
    ensures s != "" && s[|s| - 1] != sep ==> Split(s, sep)[|Split(s, sep)| - 1] != ""
  {
    if s != "" {
      SplitPieces(s[1..], sep);
      var rest := Split(s[1..], sep);
      assert rest[0] in rest;
      if |s| > 1 {
        assert s[1..][|s| - 2] == s[|s| - 1];
      }
    }
  }

  lemma {:induction false} SplitOfConcat(f: string, s: string, sep: char)
    requires sep !in f
    ensures Split(f, sep) == [f]
    ensures Split(f + [sep] + s, sep) == [f] + Split(s, sep)
  {
    if f == "" {
      assert (f + [sep] + s)[1..] == s;
    } else {
      SplitOfConcat(f[1..], s, sep);
      assert (f + [sep] + s)[1..] == f[1..] + [sep] + s;
      assert [f[0]] + f[1..] == f;
    }
  }

  /** Splitting a text at one of its separators. */
  lemma {:induction false} SplitConcat(f: string, s: string, sep: char)
    ensures Split(f + [sep] + s, sep) == Split(f, sep) + Split(s, sep)
  {
    if f == "" {
      assert (f + [sep] + s)[1..] == s;
    } else {
      SplitConcat(f[1..], s, sep);
      assert (f + [sep] + s)[1..] == f[1..] + [sep] + s;
      FirstPiece(f[0], sep, Split(f[1..], sep), Split(s, sep));
    }
  }

  lemma FirstPiece(c: char, sep: char, a: seq<string>, b: seq<string>)
    requires a != []
    ensures [""] + (a + b) == ([""] + a) + b
    ensures [[c] + (a + b)[0]] + (a + b)[1..] == ([[c] + a[0]] + a[1..]) + b
  {
  }

  lemma {:induction false} SplitJoin(fields: seq<string>, sep: char)
    requires fields != [] && forall f | f in fields :: sep !in f
    ensures Split(Join(fields, sep), sep) == fields
  {
    if |fields| == 1 {
      SplitOfConcat(fields[0], "", sep);
    } else {
      SplitJoin(fields[1..], sep);
      SplitOfConcat(fields[0], Join(fields[1..], sep), sep);
    }
  }

  lemma {:induction false} JoinLast(fields: seq<string>, sep: char)
    requires fields != [] && fields[|fields| - 1] != ""
    ensures
      var text, last := Join(fields, sep), fields[|fields| - 1];
      text != "" && text[|text| - 1] == last[|last| - 1]
  {
    if |fields| > 1 {
      JoinLast(fields[1..], sep);
    }
  }

  lemma JoinEnds(fields: seq<string>, sep: char)
    requires fields != [] && Joinable(fields, sep)
    ensures Join(fields, sep) != "" && Bare(Join(fields, sep), Is(sep))
  {
    var text, first, last := Join(fields, sep), fields[0], fields[|fields| - 1];
    JoinLast(fields, sep);
    assert text[0] == first[0] && first[0] in first;
    assert last[|last| - 1] in last;
  }

  /** Joining and reading back gives the same list exactly when no field holds the separator and the first and
      last fields are not empty. */
  lemma FieldsOfJoin(fields: seq<string>, sep: char)
    ensures Fields(Join(fields, sep), sep) == fields <==> Joinable(fields, sep)
  {
    var text := Join(fields, sep);
    if Joinable(fields, sep) {
      if fields != [] {
        JoinEnds(fields, sep);
        SplitJoin(fields, sep);
      }
    } else if text != "" {
      var bare := Trim(text, Is(sep));
      SplitPieces(bare, sep);
      assert bare == "" ==> Split(bare, sep) == [""];
    }
  }

  /** Fields read from text never hold the separator. */
  lemma FieldsClean(text: string, sep: char)
    ensures forall f | f in Fields(text, sep) :: sep !in f
    ensures Fields(text, sep) == [""] || Joinable(Fields(text, sep), sep)
  {
    if text != "" {
      SplitPieces(Trim(text, Is(sep)), sep);
    }
  }
}
