/** The text-to-rows extraction of `parsePMIData`: the ranking table's
    flattened text becomes a list of tokens, and the tokens after a fixed
    preamble are cut into 19-token blocks, each giving one five-field row.
    The page fetch and the positional DOM lookups that produce the two input
    strings (the table's text and the date paragraph's text) are outside
    the model. */
module PmiParser {
  import opened JsString

  /** One extracted row: номер, согласие, приоритет, баллы, статус. */
  type Row = seq<string>

  /** The extracted record set: the publication date, the fixed column
      labels and the rows, in table order. */
  datatype PmiData = PmiData(date: string, headers: seq<string>, rows: seq<Row>)

  /** Tokens before the first block (the table's header cells). */
  const Preamble: nat := 16
  /** Tokens per applicant block. */
  const BlockSize: nat := 19
  /** The block offsets the five fields are taken from, in column order. */
  const FieldOffsets: seq<nat> := [1, 2, 3, 7, 16]
  /** The fixed column labels. */
  const Headers: seq<string> := ["номер", "согласие", "приоритет", "баллы", "статус"]

  /** A token as the tokeniser leaves it: not empty, no whitespace at either
      end, no line feed inside. */
  predicate IsToken(t: string)
  {
    t != [] && IsTrimmed(t) && '\n' !in t
  }

  /** Every row has exactly five fields and the labels are the fixed five. */
  predicate WellFormed(data: PmiData)
  {
    && data.headers == Headers
    && forall k :: 0 <= k < |data.rows| ==> |data.rows[k]| == |Headers|
  }

  /** The blank-line filter: the non-empty strings of `xs`, in order. */
  function DropEmpty(xs: seq<string>): (r: seq<string>)
    ensures forall k :: 0 <= k < |r| ==> r[k] != [] && r[k] in xs
  {
    if xs == [] then []
    else if xs[0] == [] then DropEmpty(xs[1..])
    else [xs[0]] + DropEmpty(xs[1..])
  }

  /** Every line trimmed, one result per line, in line order. */
  function TrimEach(xs: seq<string>): (r: seq<string>)
    ensures |r| == |xs|
    ensures forall k :: 0 <= k < |r| ==> IsTrimmed(r[k]) && r[k] == Trim(xs[k])
  {
    seq(|xs|, k requires 0 <= k < |xs| => Trim(xs[k]))
  }

  /** The tokeniser: the table's text split at line feeds, each line
      trimmed, blank lines dropped. */
  function Tokenize(text: string): (r: seq<string>)
    ensures forall k :: 0 <= k < |r| ==> r[k] != []
  {
    DropEmpty(TrimEach(Split(text, '\n')))
  }

  /** Every token is non-empty, has no whitespace at either end and holds no
      line feed. */
  lemma TokenizeYieldsTokens(text: string)
    ensures forall k :: 0 <= k < |Tokenize(text)| ==> IsToken(Tokenize(text)[k])
  {
    var lines := Split(text, '\n');
    var tokens := Tokenize(text);
    forall k | 0 <= k < |tokens| ensures IsToken(tokens[k]) {
      var j :| 0 <= j < |lines| && tokens[k] == Trim(lines[j]);
      if '\n' in tokens[k] {
        TrimKeepsCharacters(lines[j], '\n');
      }
    }
  }

  /** The filter keeps every non-empty string, as often as it occurs, and
      no empty one. */
  lemma {:induction false} DropEmptyKeepsNonEmpty(xs: seq<string>)
    ensures [] !in DropEmpty(xs)
    ensures forall x :: x != [] ==> multiset(DropEmpty(xs))[x] == multiset(xs)[x]
  {
    if xs != [] {
      DropEmptyKeepsNonEmpty(xs[1..]);
      assert xs == [xs[0]] + xs[1..];
    }
  }

  /** The filter keeps order: filtering a concatenation concatenates the
      filtered halves. */
  lemma {:induction false} DropEmptyAppend(xs: seq<string>, ys: seq<string>)
    ensures DropEmpty(xs + ys) == DropEmpty(xs) + DropEmpty(ys)
  {
    if xs != [] {
      assert (xs + ys)[1..] == xs[1..] + ys;
      DropEmptyAppend(xs[1..], ys);
    } else {
      assert xs + ys == ys;
    }
  }

  /** Tokens keep the order of the lines they come from: the tokens of two
      pieces of text joined by a line feed are the tokens of the first piece
      followed by those of the second. */
  lemma TokenizeAtLineFeed(a: string, b: string)
    ensures Tokenize(a + ['\n'] + b) == Tokenize(a) + Tokenize(b)
  {
    var la, lb := Split(a, '\n'), Split(b, '\n');
    SplitAtSeparator(a, b, '\n');
    TrimEachAppend(la, lb);
    DropEmptyAppend(TrimEach(la), TrimEach(lb));
    assert Tokenize(a + ['\n'] + b) == DropEmpty(TrimEach(la + lb));
  }

  /** Trimming each line keeps line order across a concatenation. */
  lemma TrimEachAppend(xs: seq<string>, ys: seq<string>)
    ensures TrimEach(xs + ys) == TrimEach(xs) + TrimEach(ys)
  {
    var l, r := TrimEach(xs + ys), TrimEach(xs) + TrimEach(ys);
    assert |l| == |r|;
    forall k | 0 <= k < |l| ensures l[k] == r[k] {
      if k < |xs| {
        assert (xs + ys)[k] == xs[k];
      } else {
        assert (xs + ys)[k] == ys[k - |xs|];
      }
    }
  }

  /** A single line gives its trimmed text as one token, or no token when it
      is blank. */
  lemma TokenizeLine(line: string)
    requires '\n' !in line
    ensures Tokenize(line) == if Trim(line) == [] then [] else [Trim(line)]
  {
    SplitWithoutSeparator(line, '\n');
    assert TrimEach([line]) == [Trim(line)];
    assert [Trim(line)][1..] == [];
    assert Tokenize(line) == DropEmpty([Trim(line)]);
  }

  /** Where block `k` starts in the token list. */
  function BlockStart(k: nat): nat
  {
    Preamble + BlockSize * k
  }

  /** The token a row's field `f` comes from, for the row of block `k`. */
  function SourceIndex(k: nat, f: nat): nat
    requires f < |FieldOffsets|
  {
    BlockStart(k) + FieldOffsets[f]
  }

  /** The five fields of one 19-token block, in column order. */
  function BlockRow(block: seq<string>): (r: Row)
    requires |block| == BlockSize
    ensures |r| == |Headers|
    ensures r == [block[1], block[2], block[3], block[7], block[16]]
  {
    seq(|FieldOffsets|, f requires 0 <= f < |FieldOffsets| => block[FieldOffsets[f]])
  }

  /** How many rows the extraction loop takes from `n` tokens: it starts
      at the end of the preamble, steps one block at a time and stops at the
      first block not followed by at least one more token. So no row below
      36 tokens, the last block taken is followed by another token, and the
      next one is not. */
  function RowCount(n: int): (r: nat)
    ensures r == 0 <==> n <= Preamble + BlockSize
    ensures r > 0 ==> BlockStart(r - 1) + BlockSize < n
    ensures n <= BlockStart(r) + BlockSize
  {
    if n <= Preamble + BlockSize then 0
    else (n - Preamble - BlockSize - 1) / BlockSize + 1
  }

  /** `RowCount(n)` counts exactly the blocks `k` whose start `i` passes the
      loop guard `i < n - 19`, that is the blocks followed by at least one
      more token, and these are an initial run of blocks. */
  lemma RowCountSpec(n: int, k: nat)
    ensures k < RowCount(n) <==> BlockStart(k) + BlockSize < n
  {
    if n > Preamble + BlockSize {
      var q, m := (n - Preamble - BlockSize - 1) / BlockSize, (n - Preamble - BlockSize - 1) % BlockSize;
      assert n - Preamble - BlockSize - 1 == BlockSize * q + m;
    }
  }

  /** The rows the extraction loop produces from `tokens`: one per block
      that passes the loop guard, taken from block offsets 1, 2, 3, 7
      and 16. */
  function ExtractRows(tokens: seq<string>): (r: seq<Row>)
    ensures |r| == RowCount(|tokens|)
    ensures forall k :: 0 <= k < |r| ==> |r[k]| == |Headers|
  {
    seq(RowCount(|tokens|), k requires 0 <= k < RowCount(|tokens|) =>
      RowCountSpec(|tokens|, k);
      BlockRow(tokens[BlockStart(k)..BlockStart(k) + BlockSize]))
  }

  /** Field `f` of row `k` is token `16 + 19k + FieldOffsets[f]`, an index
      inside the token list and past the preamble; every row has five
      fields. */
  lemma ExtractedField(tokens: seq<string>, k: nat, f: nat)
    requires k < |ExtractRows(tokens)| && f < |FieldOffsets|
    ensures |ExtractRows(tokens)[k]| == |Headers|
    ensures Preamble < SourceIndex(k, f) < |tokens|
    ensures ExtractRows(tokens)[k][f] == tokens[SourceIndex(k, f)]
  {
    RowCountSpec(|tokens|, k);
  }

  /** Row `k` spelled out from the token list. */
  lemma ExtractedRow(tokens: seq<string>, k: nat)
    requires k < RowCount(|tokens|)
    ensures BlockStart(k) + BlockSize < |tokens|
    ensures ExtractRows(tokens)[k] == [tokens[BlockStart(k) + 1], tokens[BlockStart(k) + 2],
      tokens[BlockStart(k) + 3], tokens[BlockStart(k) + 7], tokens[BlockStart(k) + 16]]
  {
    RowCountSpec(|tokens|, k);
  }

  /** Rows come in block order: every field of an earlier row is a token
      at a smaller index than every field of a later row. */
  lemma RowsInBlockOrder(tokens: seq<string>, k1: nat, f1: nat, k2: nat, f2: nat)
    requires k1 < k2 < |ExtractRows(tokens)|
    requires f1 < |FieldOffsets| && f2 < |FieldOffsets|
    ensures SourceIndex(k1, f1) < SourceIndex(k2, f2) < |tokens|
    ensures ExtractRows(tokens)[k1][f1] == tokens[SourceIndex(k1, f1)]
    ensures ExtractRows(tokens)[k2][f2] == tokens[SourceIndex(k2, f2)]
  {
    ExtractedField(tokens, k1, f1);
    ExtractedField(tokens, k2, f2);
  }

  /** 35 tokens give no row: the one full block after the preamble ends
      exactly at the last token and fails the strict guard. */
  lemma ThirtyFiveTokensGiveNoRow(tokens: seq<string>)
    requires |tokens| == 35
    ensures ExtractRows(tokens) == []
  {
  }

  /** 54 tokens give one row, not two: the second full block ends exactly
      at the last token and is dropped. */
  lemma FiftyFourTokensGiveOneRow(tokens: seq<string>)
    requires |tokens| == 54
    ensures |ExtractRows(tokens)| == 1
    ensures ExtractRows(tokens)[0] == BlockRow(tokens[16..35])
  {
  }

  /** The step lemma for the loop invariant of `ExtractBlocks`: a prefix
      one longer is the prefix with the next element appended. */
  lemma PrefixStep<T>(s: seq<T>, k: nat)
    requires k < |s|
    ensures s[..k + 1] == s[..k] + [s[k]]
  {
  }

  /** The loop of `parsePMIData`: walks the tokens from offset 16 in
      strides of 19 while `i < tokens.length - 19`, pushing the five fields
      of each 19-token block. */
  method ExtractBlocks(tokens: seq<string>) returns (rows: seq<Row>)
    ensures rows == ExtractRows(tokens)
    ensures |rows| == RowCount(|tokens|)
  {
    ghost var spec := ExtractRows(tokens);
    rows := [];
    var i: int := Preamble;
    while i < |tokens| - BlockSize
      invariant i == BlockStart(|rows|)
      invariant |rows| <= RowCount(|tokens|)
      invariant rows == spec[..|rows|]
      decreases |tokens| - i
    {
      ghost var k := |rows|;
      RowCountSpec(|tokens|, k);
      ExtractedRow(tokens, k);
      var block := tokens[i..i + BlockSize];
      var row := [block[1], block[2], block[3], block[7], block[16]];
      PrefixStep(spec, k);
      rows := rows + [row];
      i := i + BlockSize;
      assert i == BlockStart(k + 1);
    }
    RowCountSpec(|tokens|, |rows|);
    assert rows == spec;
  }

  /** `parsePMIData` after the page fetch and the DOM lookups: the trimmed
      date, the fixed labels, and the rows of the tokenised table text. */
  method ParsePmiData(tableText: string, dateText: string) returns (data: PmiData)
    ensures WellFormed(data)
    ensures data.date == Trim(dateText)
    ensures data.rows == ExtractRows(Tokenize(tableText))
    ensures |data.rows| == RowCount(|Tokenize(tableText)|)
  {
    var tableTokens := Tokenize(tableText);
    var rows := ExtractBlocks(tableTokens);
    data := PmiData(Trim(dateText), Headers, rows);
    forall k | 0 <= k < |data.rows| ensures |data.rows[k]| == |Headers| {
      ExtractedField(tableTokens, k, 0);
    }
  }
}
