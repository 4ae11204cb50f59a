/**
 The corpus loader: the text of the corpus file becomes one document per
 non-blank line, trimmed, numbered from 0 in file order.
 */
module Corpus {
  import opened Text

  /** A passage of the corpus: its position among the kept lines and its trimmed text. */
  datatype Doc = Doc(id: int, text: string)

  /** What loading yields: the documents, or the error raised for a corpus with no text. */
  datatype LoadResult = Loaded(docs: seq<Doc>) | EmptyCorpus

  /** A line the loader skips: nothing is left once it is stripped (by StripSpec, a whitespace-only line). */
  predicate IsBlank(line: string) {
    Strip(line) == []
  }

  /** The stripped non-blank lines of `lines`, in order: the texts the loader keeps. */
  function Texts(lines: seq<string>): (ts: seq<string>)
    ensures |ts| <= |lines|
    ensures forall j :: 0 <= j < |ts| ==> ts[j] != []
  {
    if lines == [] then []
    else
      var last := Strip(lines[|lines| - 1]);
      Texts(lines[..|lines| - 1]) + (if last == [] then [] else [last])
  }

  /**
   Loads the documents from the contents of the corpus file: each line is
   stripped, blank lines are skipped, and each kept line gets the number of
   documents kept before it as its id. No kept line is an error.
   */
  method LoadLines(content: string) returns (r: LoadResult)
    ensures r == EmptyCorpus <==> forall i :: 0 <= i < |SplitLines(content)| ==> AllSpace(SplitLines(content)[i])
    ensures r.Loaded? ==> |r.docs| == |Texts(SplitLines(content))| > 0
    ensures r.Loaded? ==> forall j :: 0 <= j < |r.docs| ==> r.docs[j] == Doc(j, Texts(SplitLines(content))[j])
  {
    var raw := SplitLines(content);
    var lines: seq<Doc> := [];
    for i := 0 to |raw|
      invariant |lines| == |Texts(raw[..i])|
      invariant forall j :: 0 <= j < |lines| ==> lines[j] == Doc(j, Texts(raw[..i])[j])
    {
      assert raw[..i + 1][..i] == raw[..i];
      var t := Strip(raw[i]);
      if t != [] {
        lines := lines + [Doc(|lines|, t)];
      }
    }
    assert raw[..|raw|] == raw;
    TextsEmpty(raw);
    forall i | 0 <= i < |raw| ensures IsBlank(raw[i]) <==> AllSpace(raw[i]) {
      StripSpec(raw[i]);
    }
    if lines == [] {
      return EmptyCorpus;
    }
    return Loaded(lines);
  }

  /** Nothing is kept exactly when every line is blank. */
  lemma {:induction false} TextsEmpty(lines: seq<string>)
    ensures Texts(lines) == [] <==> forall i :: 0 <= i < |lines| ==> IsBlank(lines[i])
  {
    if lines != [] {
      var init, last := lines[..|lines| - 1], lines[|lines| - 1];
      TextsEmpty(init);
      assert forall i :: 0 <= i < |init| ==> init[i] == lines[i];
      if IsBlank(last) {
        assert Texts(lines) == Texts(init);
      } else {
        assert |Texts(lines)| == |Texts(init)| + 1;
      }
    }
  }

  /** What is kept from a prefix of the file is a prefix of what is kept from the whole file. */
  lemma {:induction false} TextsPrefix(lines: seq<string>, i: nat)
    requires i <= |lines|
    ensures Texts(lines[..i]) <= Texts(lines)
    decreases |lines| - i
  {
    if i < |lines| {
      TextsPrefix(lines, i + 1);
      assert lines[..i + 1][..i] == lines[..i];
    } else {
      assert lines[..i] == lines;
    }
  }

  /**
   No non-blank line is lost: line `i`, stripped, is the document whose id is
   the number of non-blank lines before it.
   */
  lemma TextAt(lines: seq<string>, i: nat)
    requires i < |lines| && !IsBlank(lines[i])
    ensures |Texts(lines[..i])| < |Texts(lines)|
    ensures Texts(lines)[|Texts(lines[..i])|] == Strip(lines[i])
  {
    var upTo := lines[..i + 1];
    assert upTo[..i] == lines[..i] && upTo[i] == lines[i];
    assert Texts(upTo) == Texts(lines[..i]) + [Strip(lines[i])];
    TextsPrefix(lines, i + 1);
  }

  /** Ids follow file order: a non-blank line gets a smaller id than every kept line after it. */
  lemma TextOrder(lines: seq<string>, i: nat, i': nat)
    requires i < i' <= |lines| && !IsBlank(lines[i])
    ensures |Texts(lines[..i])| < |Texts(lines[..i'])|
  {
    TextAt(lines[..i'], i);
    assert lines[..i'][..i] == lines[..i];
  }

  /** Nothing is invented: every kept text is some line stripped, at the id its position gives. */
  lemma {:induction false} TextOrigin(lines: seq<string>, j: nat) returns (i: nat)
    requires j < |Texts(lines)|
    ensures i < |lines| && !IsBlank(lines[i])
    ensures |Texts(lines[..i])| == j && Texts(lines)[j] == Strip(lines[i])
  {
    var init := lines[..|lines| - 1];
    if j < |Texts(init)| {
      i := TextOrigin(init, j);
      assert init[..i] == lines[..i];
    } else {
      i := |lines| - 1;
      assert init == lines[..i];
    }
  }

  /** Every kept text is already trimmed: stripping it again changes nothing. */
  lemma TextsTrimmed(lines: seq<string>, j: nat)
    requires j < |Texts(lines)|
    ensures Strip(Texts(lines)[j]) == Texts(lines)[j]
  {
    var i := TextOrigin(lines, j);
    StripIdempotent(lines[i]);
  }

  /** A blank line and padding are dropped, and the kept lines stay in order. */
  lemma TextsExample()
    ensures Texts(["ab", "", " c ", "d"]) == ["ab", "c", "d"]
  {
    var lines := ["ab", "", " c ", "d"];
    StripExample();
    assert lines[..3] == ["ab", "", " c "];
    assert lines[..3][..2] == ["ab", ""];
    assert lines[..3][..2][..1] == ["ab"];
    assert Texts(["ab"]) == ["ab"];
    assert Texts(["ab", ""]) == ["ab"];
    assert Texts(["ab", "", " c "]) == ["ab", "c"];
  }

  lemma StripExample()
    ensures Strip("ab") == "ab" && Strip("") == [] && Strip(" c ") == "c" && Strip("d") == "d"
  {
    assert [] + "ab" + [] == "ab";
    StripUnique([], "ab", []);
    assert " " + "c" + " " == " c ";
    StripUnique(" ", "c", " ");
    assert [] + "d" + [] == "d";
    StripUnique([], "d", []);
  }
}
