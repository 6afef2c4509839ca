/** `clean_extracted_text`: split the OCR text into lines, keep each line that
    is not a bare URL and is longer than four characters, strip the survivors
    and join them again. Both tests look at the line as it was, before
    stripping. */
module Cleaner {
  import opened Strings
  import opened Subsequences

  /** Lines no longer than this are dropped as noise. */
  const MaxNoiseLength: nat := 4

  /** The URL test: a case-sensitive prefix match on the untrimmed line. */
  predicate IsUrlLine(line: string) {
    StartsWith(line, "http://") || StartsWith(line, "https://")
  }

  /** Whether a raw line survives cleaning. */
  predicate Keep(line: string) {
    !IsUrlLine(line) && |line| > MaxNoiseLength
  }

  /** The per-line filter of the cleaner, on an already split list of lines:
      each survivor is stripped, the rest are dropped. */
  function CleanLines(lines: seq<string>): (out: seq<string>)
    ensures |out| <= |lines|
    decreases |lines|
  {
    if |lines| == 0 then []
    else
      var last := lines[|lines| - 1];
      CleanLines(lines[..|lines| - 1]) + (if Keep(last) then [Strip(last)] else [])
  }

  /** An empty line list reaches the client as one empty line. */
  function OrBlank(lines: seq<string>): seq<string> {
    if lines == [] then [""] else lines
  }

  /** `clean_extracted_text` on the whole text. Splitting its result again,
      as the handler does, yields exactly the cleaned lines, or `[""]` when
      none survived. The cleaned text has no more lines than the input. */
  function Clean(text: string): (r: string)
    ensures Split(r) == OrBlank(CleanLines(Split(text)))
    ensures |Split(r)| <= |Split(text)|
  {
    var cleaned := CleanLines(Split(text));
    CleanLinesNoNewline(Split(text));
    if cleaned == [] then
      SplitJoinEmpty();
      Join(cleaned)
    else
      SplitJoin(cleaned);
      Join(cleaned)
  }

  /** The loop of `clean_extracted_text`, appending survivors one line at a
      time; it computes the same text as `Clean`. */
  method CleanExtractedText(text: string) returns (r: string)
    ensures r == Join(CleanLines(Split(text)))
  {
    var lines := Split(text);
    var cleaned: seq<string> := [];
    var i := 0;
    while i < |lines|
      invariant 0 <= i <= |lines|
      invariant cleaned == CleanLines(lines[..i])
    {
      var line := lines[i];
      if !(StartsWith(line, "http://") || StartsWith(line, "https://")) {
        if |line| > 4 {
          cleaned := cleaned + [Strip(line)];
        }
      }
      assert lines[..i + 1][..i] == lines[..i];
      i := i + 1;
    }
    assert lines[..i] == lines;
    r := Join(cleaned);
  }

  /** No line is split or merged: cleaning a concatenation cleans each part on
      its own. */
  lemma {:induction false} CleanLinesAppend(a: seq<string>, b: seq<string>)
    ensures CleanLines(a + b) == CleanLines(a) + CleanLines(b)
    decreases |b|
  {
    if |b| == 0 {
      assert a + b == a;
    } else {
      var b' := b[..|b| - 1];
      assert (a + b)[..|a + b| - 1] == a + b';
      assert (a + b)[|a + b| - 1] == b[|b| - 1];
      CleanLinesAppend(a, b');
    }
  }

  /** The output is exactly the stripped survivors in input order: output line
      `k` is the stripped form of the `k`-th input line that passes `Keep`, and
      every line passing `Keep` contributes one output line. */
  lemma {:induction false} CleanLinesSelects(lines: seq<string>)
    ensures |CleanLines(lines)| == |IndicesWhere(lines, Keep)|
    ensures forall k :: 0 <= k < |CleanLines(lines)| ==>
      CleanLines(lines)[k] == Strip(lines[IndicesWhere(lines, Keep)[k]])
    decreases |lines|
  {
    if |lines| > 0 {
      var init := lines[..|lines| - 1];
      var last := lines[|lines| - 1];
      CleanLinesSelects(init);
      var idx, idxInit := IndicesWhere(lines, Keep), IndicesWhere(init, Keep);
      var out, outInit := CleanLines(lines), CleanLines(init);
      assert out == outInit + (if Keep(last) then [Strip(last)] else []);
      assert idx == idxInit + (if Keep(last) then [|lines| - 1] else []);
      forall k | 0 <= k < |out|
        ensures out[k] == Strip(lines[idx[k]])
      {
        if k < |outInit| {
          assert out[k] == outInit[k];
          assert idx[k] == idxInit[k];
          assert init[idxInit[k]] == lines[idxInit[k]];
        }
      }
    }
  }

  /** Every output line is the stripped form of some kept input line. */
  lemma CleanLinesSound(lines: seq<string>, k: nat)
    requires k < |CleanLines(lines)|
    ensures exists i :: 0 <= i < |lines| && Keep(lines[i]) && CleanLines(lines)[k] == Strip(lines[i])
  {
    CleanLinesSelects(lines);
    var i := IndicesWhere(lines, Keep)[k];
    assert Keep(lines[i]) && CleanLines(lines)[k] == Strip(lines[i]);
  }

  /** Every kept input line appears, stripped, in the output. */
  lemma {:induction false} CleanLinesComplete(lines: seq<string>, i: nat)
    requires i < |lines| && Keep(lines[i])
    ensures Strip(lines[i]) in CleanLines(lines)
  {
    CleanLinesSelects(lines);
    var idx := IndicesWhere(lines, Keep);
    var k :| 0 <= k < |idx| && idx[k] == i;
    assert CleanLines(lines)[k] == Strip(lines[i]);
  }

  /** Cleaning newline-free lines yields newline-free lines. */
  lemma CleanLinesNoNewline(lines: seq<string>)
    requires forall k :: 0 <= k < |lines| ==> Newline !in lines[k]
    ensures forall k :: 0 <= k < |CleanLines(lines)| ==> Newline !in CleanLines(lines)[k]
  {
    CleanLinesSelects(lines);
    var idx := IndicesWhere(lines, Keep);
    forall k | 0 <= k < |CleanLines(lines)|
      ensures Newline !in CleanLines(lines)[k]
    {
      if Newline in CleanLines(lines)[k] {
        StripKeepsChars(lines[idx[k]], Newline);
      }
    }
  }

  /** Cleaning a single line keeps it, stripped, or drops it. */
  lemma CleanOne(line: string)
    ensures CleanLines([line]) == if Keep(line) then [Strip(line)] else []
  {
    var one := [line];
    assert one[..0] == [];
  }

  /** A line whose first character is not `h` is not a URL line. */
  lemma NotUrlLine(line: string)
    requires line != [] && line[0] != 'h'
    ensures !IsUrlLine(line)
  {
    if |line| >= 7 {
      assert line[..7][0] == line[0];
    }
    if |line| >= 8 {
      assert line[..8][0] == line[0];
    }
  }

  /** The URL line of `IndentedUrlSurvivesOnce` and `ShortAndUrlLinesDropped`
      is dropped. */
  lemma BareUrlDropped(url: string)
    requires url == "http://x.com"
    ensures !Keep(url)
  {
    assert url[..7] == "http://";
  }

  /** Two blanks before a URL hide it from the URL test and are stripped. */
  lemma IndentedUrlKept(line: string, url: string)
    requires line == "  http://x.com" && url == "http://x.com"
    ensures Keep(line) && Strip(line) == url
  {
    assert line[0] == ' ';
    NotUrlLine(line);
    assert line == "  " + url + "";
    assert url[0] == 'h' && url[|url| - 1] == 'm';
    StripPadded("  ", url, "");
  }

  /** A line indented before its URL is not recognised as a URL: it survives
      in stripped form, and a second pass then drops it. */
  lemma IndentedUrlSurvivesOnce(line: string, url: string)
    requires line == "  http://x.com" && url == "http://x.com"
    ensures CleanLines([line]) == [url]
    ensures CleanLines(CleanLines([line])) == []
  {
    IndentedUrlKept(line, url);
    BareUrlDropped(url);
    CleanOne(line);
    CleanOne(url);
  }

  /** The length test counts the padding: a padded short word survives once and
      is dropped on a second pass. */
  lemma PaddedShortLineSurvivesOnce(line: string, word: string)
    requires line == "   ab   " && word == "ab"
    ensures CleanLines([line]) == [word]
    ensures CleanLines(CleanLines([line])) == []
  {
    assert Keep(line) by {
      assert line[0] == ' ';
      NotUrlLine(line);
    }
    assert Strip(line) == word by {
      assert line == "   " + word + "   ";
      assert word[0] == 'a' && word[1] == 'b';
      StripPadded("   ", word, "   ");
    }
    assert !Keep(word);
    CleanOne(line);
    CleanOne(word);
  }

  /** A line of five or more whitespace characters is kept, as the empty line. */
  lemma BlankLineKeptEmpty(line: string)
    requires |line| > MaxNoiseLength
    requires forall k :: 0 <= k < |line| ==> IsSpace(line[k])
    ensures CleanLines([line]) == [""]
  {
    assert line[0] != 'h' by {
      assert IsSpace(line[0]) && !IsSpace('h');
    }
    NotUrlLine(line);
    StripAllSpace(line);
    CleanOne(line);
  }

  /** Dropping any line makes the output strictly shorter than the input. */
  lemma {:induction false} DroppedLineShortens(lines: seq<string>, i: nat)
    requires i < |lines| && !Keep(lines[i])
    ensures |CleanLines(lines)| < |lines|
    decreases |lines|
  {
    var init := lines[..|lines| - 1];
    if i < |lines| - 1 {
      assert init[i] == lines[i];
      DroppedLineShortens(init, i);
    }
  }

  /** Cleaning leaves a list alone exactly when every line already passes the
      filter and is already stripped. */
  lemma {:induction false} CleanLinesFixed(lines: seq<string>)
    ensures CleanLines(lines) == lines <==>
      forall k :: 0 <= k < |lines| ==> Keep(lines[k]) && Strip(lines[k]) == lines[k]
  {
    if CleanLines(lines) == lines {
      FixedListIsClean(lines);
    }
    if forall k :: 0 <= k < |lines| ==> Keep(lines[k]) && Strip(lines[k]) == lines[k] {
      CleanListIsFixed(lines);
    }
  }

  lemma FixedListIsClean(lines: seq<string>)
    requires CleanLines(lines) == lines
    ensures forall k :: 0 <= k < |lines| ==> Keep(lines[k]) && Strip(lines[k]) == lines[k]
  {
    forall k | 0 <= k < |lines|
      ensures Keep(lines[k])
    {
      if !Keep(lines[k]) {
        DroppedLineShortens(lines, k);
      }
    }
    CleanLinesSelects(lines);
    var idx := IndicesWhere(lines, Keep);
    IdentityIndices(lines, idx);
    forall k | 0 <= k < |lines|
      ensures Strip(lines[k]) == lines[k]
    {
      assert CleanLines(lines)[k] == Strip(lines[idx[k]]);
    }
  }

  lemma {:induction false} CleanListIsFixed(lines: seq<string>)
    requires forall k :: 0 <= k < |lines| ==> Keep(lines[k]) && Strip(lines[k]) == lines[k]
    ensures CleanLines(lines) == lines
    decreases |lines|
  {
    if |lines| > 0 {
      var init, last := lines[..|lines| - 1], lines[|lines| - 1];
      assert lines == init + [last];
      CleanListIsFixed(init);
      CleanLinesAppend(init, [last]);
      CleanOne(last);
    }
  }

  /** When every position qualifies, the ascending list of qualifying
      positions is the identity. */
  lemma {:induction false} IdentityIndices(lines: seq<string>, idx: seq<nat>)
    requires idx == IndicesWhere(lines, Keep)
    requires forall k :: 0 <= k < |lines| ==> Keep(lines[k])
    ensures |idx| == |lines|
    ensures forall k :: 0 <= k < |idx| ==> idx[k] == k
  {
    forall i | 0 <= i < |lines|
      ensures i in idx
    {
      assert Keep(lines[i]);
    }
    IndicesCover(idx, |lines|);
  }

  /** A strictly ascending list of positions below `n` that lists all of them
      is `0, 1, ..., n - 1`. */
  lemma {:induction false} IndicesCover(idx: seq<nat>, n: nat)
    requires |idx| <= n
    requires forall k :: 0 <= k < |idx| ==> idx[k] < n
    requires forall k, m :: 0 <= k < m < |idx| ==> idx[k] < idx[m]
    requires forall i :: 0 <= i < n ==> i in idx
    ensures |idx| == n
    ensures forall k :: 0 <= k < |idx| ==> idx[k] == k
    decreases n
  {
    if n > 0 {
      assert n - 1 in idx;
      var j :| 0 <= j < |idx| && idx[j] == n - 1;
      var last := |idx| - 1;
      assert forall k :: 0 <= k < last ==> idx[k] < idx[last];
      assert j == last;
      var init := idx[..last];
      forall i | 0 <= i < n - 1
        ensures i in init
      {
        assert i in idx;
        var m :| 0 <= m < |idx| && idx[m] == i;
        assert init[m] == i;
      }
      IndicesCover(init, n - 1);
    }
  }

  /** Cleaning twice gives the same as cleaning once exactly when no survivor
      of the first pass is dropped by the second (stripping is already stable). */
  lemma {:induction false} CleanTwice(lines: seq<string>)
    ensures CleanLines(CleanLines(lines)) == CleanLines(lines) <==>
      forall k :: 0 <= k < |CleanLines(lines)| ==> Keep(CleanLines(lines)[k])
  {
    var once := CleanLines(lines);
    CleanLinesSelects(lines);
    var idx := IndicesWhere(lines, Keep);
    forall k | 0 <= k < |once|
      ensures Strip(once[k]) == once[k]
    {
      StripIdempotent(lines[idx[k]]);
    }
    CleanLinesFixed(once);
  }
}
