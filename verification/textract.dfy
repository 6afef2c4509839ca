/** The OCR service's reply and the loop of `textract_handler` that collects
    the text of its LINE blocks. The service itself is not modelled: its reply
    is a value handed to the model. */
module Textract {
  import opened Wrappers
  import opened Subsequences

  /** An exception raised inside the handler's `try` block: a dictionary
      lookup of a missing key (Python's `KeyError`), or any other exception,
      kept only through its message. */
  datatype Fault = MissingKey(key: string) | Raised(detail: string)

  /** One item of the reply's `Blocks` list; either field may be absent. */
  datatype Block = Block(blockType: Option<string>, text: Option<string>)

  /** The reply of `detect_document_text`; its `Blocks` entry may be absent. */
  datatype OcrReply = OcrReply(blocks: Option<seq<Block>>)

  const LineType: string := "LINE"

  predicate IsLine(b: Block) {
    b.blockType == Some(LineType)
  }

  /** The loop can read this block: it has a type, and a text if it is a line. */
  predicate Readable(b: Block) {
    b.blockType.Some? && (IsLine(b) ==> b.text.Some?)
  }

  /** The lookup that fails first on an unreadable block. */
  function BlockFault(b: Block): Fault {
    if b.blockType.None? then MissingKey("BlockType") else MissingKey("Text")
  }

  /** The texts of the LINE blocks, in the service's order, or the `KeyError`
      raised by the first block the loop cannot read. The loop succeeds exactly
      when every block is readable. */
  function LineTexts(blocks: seq<Block>): (r: Result<seq<string>, Fault>)
    ensures r.Success? <==> forall i :: 0 <= i < |blocks| ==> Readable(blocks[i])
    ensures r.Success? ==> |r.value| <= |blocks|
    decreases |blocks|
  {
    if |blocks| == 0 then Success([])
    else
      var init := blocks[..|blocks| - 1];
      var b := blocks[|blocks| - 1];
      assert forall i :: 0 <= i < |init| ==> init[i] == blocks[i];
      match LineTexts(init)
      case Failure(f) => Failure(f)
      case Success(texts) =>
        if b.blockType.None? then Failure(MissingKey("BlockType"))
        else if !IsLine(b) then Success(texts)
        else if b.text.None? then Failure(MissingKey("Text"))
        else Success(texts + [b.text.value])
  }

  /** On success the result holds exactly the texts of the LINE blocks, in
      order: text `k` belongs to the `k`-th LINE block, and blocks of every
      other type contribute nothing. */
  lemma {:induction false} LineTextsSelects(blocks: seq<Block>)
    requires LineTexts(blocks).Success?
    ensures |LineTexts(blocks).value| == |IndicesWhere(blocks, IsLine)|
    ensures forall k :: 0 <= k < |LineTexts(blocks).value| ==>
      blocks[IndicesWhere(blocks, IsLine)[k]].text == Some(LineTexts(blocks).value[k])
    decreases |blocks|
  {
    if |blocks| > 0 {
      var init := blocks[..|blocks| - 1];
      var b := blocks[|blocks| - 1];
      assert forall i :: 0 <= i < |init| ==> init[i] == blocks[i];
      LineTextsSelects(init);
      var texts, textsInit := LineTexts(blocks).value, LineTexts(init).value;
      var idx, idxInit := IndicesWhere(blocks, IsLine), IndicesWhere(init, IsLine);
      assert idx == idxInit + (if IsLine(b) then [|blocks| - 1] else []);
      assert texts == textsInit + (if IsLine(b) then [b.text.value] else []);
      forall k | 0 <= k < |texts|
        ensures blocks[idx[k]].text == Some(texts[k])
      {
        if k < |textsInit| {
          assert texts[k] == textsInit[k] && idx[k] == idxInit[k];
        }
      }
    }
  }

  /** Texts free of a character stay free of it once collected. */
  lemma LineTextsAvoid(blocks: seq<Block>, c: char)
    requires LineTexts(blocks).Success?
    requires forall i :: 0 <= i < |blocks| ==> blocks[i].text.Some? ==> c !in blocks[i].text.value
    ensures forall k :: 0 <= k < |LineTexts(blocks).value| ==> c !in LineTexts(blocks).value[k]
  {
    LineTextsSelects(blocks);
    var texts := LineTexts(blocks).value;
    var idx := IndicesWhere(blocks, IsLine);
    forall k | 0 <= k < |texts|
      ensures c !in texts[k]
    {
      assert blocks[idx[k]].text == Some(texts[k]);
    }
  }

  /** Block `i` is the first one the loop cannot read. */
  ghost predicate FirstUnreadable(blocks: seq<Block>, i: int) {
    && 0 <= i < |blocks|
    && !Readable(blocks[i])
    && forall j :: 0 <= j < i ==> Readable(blocks[j])
  }

  /** On failure the raised `KeyError` is the one of the first unreadable
      block: every block before it was read without error. */
  lemma {:induction false} LineTextsFirstFault(blocks: seq<Block>)
    requires LineTexts(blocks).Failure?
    ensures exists i :: FirstUnreadable(blocks, i) && LineTexts(blocks).error == BlockFault(blocks[i])
    decreases |blocks|
  {
    var init := blocks[..|blocks| - 1];
    var last := |blocks| - 1;
    assert forall i :: 0 <= i < |init| ==> init[i] == blocks[i];
    if LineTexts(init).Failure? {
      LineTextsFirstFault(init);
      var i :| FirstUnreadable(init, i) && LineTexts(init).error == BlockFault(init[i]);
      assert FirstUnreadable(blocks, i);
    } else {
      assert FirstUnreadable(blocks, last);
    }
  }
}
