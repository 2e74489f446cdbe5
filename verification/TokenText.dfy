/** Encoding and decoding of text (kernel/llm/tokenizer.c): what pre-tokenisation and decoding
    compute, and the round trip through the merge loop. */
module TokenText {
  import opened MergeTable
  import opened Bpe

  type Bytes = seq<bv8>

  /** U+2581, the word boundary marker. */
  const MARKER: Bytes := [0xE2, 0x96, 0x81]
  const SPACE: bv8 := 0x20
  const MAX_TEXT: nat := 65536
  const MAX_VOCAB: nat := 32000

  datatype Config = Config(bos: nat, eos: nat, unk: nat, pad: nat, addBos: bool, addEos: bool)

  datatype Tok = Tok(vocab: seq<Bytes>, rules: seq<Rule>, cfg: Config)

  predicate IsSpace(c: bv8) { c == 0x20 || c == 0x09 || c == 0x0A || c == 0x0D }

  // ----- Vocabulary lookups -----

  /** The first vocabulary entry from `from` on that equals s, or |vocab|. */
  function FindStr(vocab: seq<Bytes>, s: Bytes, from: nat): (i: nat)
    requires from <= |vocab|
    ensures from <= i <= |vocab| && (i < |vocab| ==> vocab[i] == s)
    ensures forall j | from <= j < i :: vocab[j] != s
    decreases |vocab| - from
  {
    if from == |vocab| || vocab[from] == s then from else FindStr(vocab, s, from + 1)
  }

  /** tokenizer_str_to_token. */
  function StrToToken(t: Tok, s: Bytes): nat
  {
    var i := FindStr(t.vocab, s, 0);
    if i < |t.vocab| then i else t.cfg.unk
  }

  /** utf8_seq_len. */
  function Utf8Len(b: bv8): (n: nat)
    ensures 1 <= n <= 4
  {
    if b & 0x80 == 0x00 then 1
    else if b & 0xE0 == 0xC0 then 2
    else if b & 0xF0 == 0xE0 then 3
    else if b & 0xF8 == 0xF0 then 4
    else 1
  }

  function HexDigit(n: bv8): bv8 { if n < 10 then 0x30 + n else 0x41 + (n - 10) }

  /** "<0xNN>". */
  function Fallback(b: bv8): Bytes
  {
    [0x3C, 0x30, 0x78, HexDigit(b >> 4), HexDigit(b & 0x0F), 0x3E]
  }

  predicate IsDigit(c: bv8) { 0x30 <= c <= 0x39 || 0x41 <= c <= 0x46 || 0x61 <= c <= 0x66 }

  function DigitValue(c: bv8): bv8
  {
    if c <= 0x39 then c - 0x30 else if c <= 0x46 then c - 0x41 + 10 else c - 0x61 + 10
  }

  /** A token that decode_hex_byte accepts. */
  predicate IsHex(s: Bytes)
  {
    |s| == 6 && s[0] == 0x3C && s[1] == 0x30 && s[2] == 0x78 && s[5] == 0x3E && IsDigit(s[3]) && IsDigit(s[4])
  }

  function HexByte(s: Bytes): bv8
    requires IsHex(s)
  {
    (DigitValue(s[3]) << 4) | DigitValue(s[4])
  }

  lemma DigitReadsBack(n: bv8)
    requires n <= 15
    ensures IsDigit(HexDigit(n)) && DigitValue(HexDigit(n)) == n
  {
  }

  /** The spelling has capital digits, and small ones are read as well: "<0xAB>" and "<0xab>". */
  lemma FallbackSpells()
    ensures Fallback(0xAB) == [0x3C, 0x30, 0x78, 0x41, 0x42, 0x3E]
    ensures var small := [0x3C, 0x30, 0x78, 0x61, 0x62, 0x3E]; IsHex(small) && HexByte(small) == 0xAB
  {
  }

  /** decode_hex_byte reads back what byte_to_token_id spells. */
  lemma FallbackReadsBack(b: bv8)
    ensures IsHex(Fallback(b)) && HexByte(Fallback(b)) == b
  {
    var hi, lo := b >> 4, b & 0x0F;
    assert hi <= 15 && lo <= 15 && (hi << 4) | lo == b;
    DigitReadsBack(hi);
    DigitReadsBack(lo);
  }

  /** byte_to_token_id. */
  function ByteToken(t: Tok, b: bv8): nat
  {
    var id := StrToToken(t, [b]);
    if id != t.cfg.unk then id else StrToToken(t, Fallback(b))
  }

  // ----- Pre-tokenisation -----

  predicate WordStart(text: Bytes, i: nat)
    requires i < |text|
  {
    i == 0 || IsSpace(text[i - 1])
  }

  /** The vocabulary has the whole UTF-8 character at i. */
  predicate WholeChar(t: Tok, text: Bytes, i: nat): (yes: bool)
    requires i < |text|
    ensures yes ==> i + Utf8Len(text[i]) <= |text|
  {
    var n := Utf8Len(text[i]);
    i + n <= |text| && StrToToken(t, text[i..i + n]) != t.cfg.unk
  }

  /** The character at i is taken whole if the vocabulary has it, else byte by byte. */
  function CharLen(t: Tok, text: Bytes, i: nat): (n: nat)
    requires i < |text|
    ensures 1 <= n && i + n <= |text|
  {
    if WholeChar(t, text, i) then Utf8Len(text[i]) else 1
  }

  function CharId(t: Tok, text: Bytes, i: nat): nat
    requires i < |text|
  {
    if WholeChar(t, text, i) then StrToToken(t, text[i..i + Utf8Len(text[i])]) else ByteToken(t, text[i])
  }

  /** The marker and the character at i have a token of their own. */
  predicate MarkedChar(t: Tok, text: Bytes, i: nat): (yes: bool)
    requires i < |text|
    ensures yes ==> i + Utf8Len(text[i]) <= |text|
  {
    var n := Utf8Len(text[i]);
    i + n <= |text| && StrToToken(t, MARKER + text[i..i + n]) != t.cfg.unk
  }

  /** The tokens of the text from position i on. */
  function PreTok(t: Tok, text: Bytes, i: nat): seq<nat>
    decreases |text| - i
  {
    if i >= |text| then []
    else if IsSpace(text[i]) then PreTok(t, text, i + 1)
    else if WordStart(text, i) && MarkedChar(t, text, i) then
      var n := Utf8Len(text[i]);
      [StrToToken(t, MARKER + text[i..i + n])] + PreTok(t, text, i + n)
    else
      (if WordStart(text, i) then [StrToToken(t, MARKER)] else [])
      + [CharId(t, text, i)] + PreTok(t, text, i + CharLen(t, text, i))
  }

  lemma NoTokens(t: Tok, text: Bytes)
    ensures PreTok(t, text, |text|) == []
  {
  }

  lemma InsideWord(text: Bytes, i: nat)
    requires i < |text| && !IsSpace(text[i])
    ensures i + 1 < |text| ==> !WordStart(text, i + 1)
  {
  }

  lemma PreTokAtMarked(t: Tok, text: Bytes, i: nat)
    requires i < |text| && !IsSpace(text[i]) && WordStart(text, i) && MarkedChar(t, text, i)
    ensures PreTok(t, text, i) ==
              [StrToToken(t, MARKER + text[i..i + Utf8Len(text[i])])] + PreTok(t, text, i + Utf8Len(text[i]))
  {
    hide StrToToken, Utf8Len, IsSpace, MarkedChar;
  }

  /** The marker token before the first character of a word. */
  function MarkerLead(t: Tok, text: Bytes, i: nat): seq<nat>
    requires i < |text|
  {
    if WordStart(text, i) then [StrToToken(t, MARKER)] else []
  }

  lemma PreTokAtPlain(t: Tok, text: Bytes, i: nat)
    requires i < |text| && !IsSpace(text[i]) && !(WordStart(text, i) && MarkedChar(t, text, i))
    ensures PreTok(t, text, i) ==
              MarkerLead(t, text, i) + [CharId(t, text, i)] + PreTok(t, text, i + CharLen(t, text, i))
  {
    hide StrToToken, CharId, CharLen, IsSpace, MarkedChar, WordStart;
  }

  lemma SkipSpace(t: Tok, text: Bytes, i: nat)
    requires i < |text| && IsSpace(text[i])
    ensures PreTok(t, text, i) == PreTok(t, text, i + 1)
  {
  }

  /** A text of n bytes needs at most n + 1 nodes (one more at the start of a word), so the
      static node buffer is never full. */
  lemma {:induction false} PreTokFits(t: Tok, text: Bytes, i: nat)
    requires i <= |text|
    ensures |PreTok(t, text, i)| + i <= |text| + if i < |text| && !IsSpace(text[i]) && WordStart(text, i) then 1 else 0
    decreases |text| - i
  {
    hide StrToToken, CharLen, CharId, MarkedChar, Utf8Len, IsSpace, PreTok, WordStart;
    if i == |text| {
      NoTokens(t, text);
    } else if IsSpace(text[i]) {
      SkipSpace(t, text, i);
      PreTokFits(t, text, i + 1);
    } else if WordStart(text, i) && MarkedChar(t, text, i) {
      PreTokAtMarked(t, text, i);
      PreTokFits(t, text, i + Utf8Len(text[i]));
    } else {
      PreTokAtPlain(t, text, i);
      InsideWord(text, i);
      PreTokFits(t, text, i + CharLen(t, text, i));
    }
  }

  // ----- Decoding -----

  predicate HasMarkerPrefix(s: Bytes) { |s| >= 3 && s[0] == 0xE2 && s[1] == 0x96 && s[2] == 0x81 }

  /** What one token decodes to; the very first token of the sequence loses its space. */
  function Piece(t: Tok, id: nat, first: bool): Bytes
  {
    if id == t.cfg.bos || id == t.cfg.eos || id >= |t.vocab| then []
    else
      var s := t.vocab[id];
      if IsHex(s) then [HexByte(s)]
      else if HasMarkerPrefix(s) then (if first then [] else [SPACE]) + s[3..]
      else s
  }

  function Decoded(t: Tok, ids: seq<nat>, k: nat): Bytes
    requires k <= |ids|
    decreases |ids| - k
  {
    if k == |ids| then [] else Piece(t, ids[k], k == 0) + Decoded(t, ids, k + 1)
  }

  /** Ids decode to nothing exactly when each of them does: special and unknown tokens, empty ones, and a
      lone marker in front. */
  lemma {:induction false} DecodesToNothing(t: Tok, ids: seq<nat>, k: nat)
    requires k <= |ids|
    ensures Decoded(t, ids, k) == [] <==> forall i | k <= i < |ids| :: Piece(t, ids[i], i == 0) == []
    decreases |ids| - k
  {
    hide Piece;
    if k < |ids| { DecodesToNothing(t, ids, k + 1); }
  }

  /** It happens: no id at all, and a begin token alone. */
  lemma NothingDecoded(t: Tok)
    ensures Decoded(t, [], 0) == [] && Decoded(t, [t.cfg.bos], 0) == []
  {
    DecodesToNothing(t, [t.cfg.bos], 0);
  }

  // ----- What the text means -----

  /** The space before a word. */
  function Lead(text: Bytes, i: nat): Bytes
    requires i < |text|
  {
    if WordStart(text, i) then [SPACE] else []
  }

  /** The text from i on with every run of whitespace replaced by one space before the next word. */
  function Spaced(text: Bytes, i: nat): Bytes
    decreases |text| - i
  {
    if i >= |text| then []
    else if IsSpace(text[i]) then Spaced(text, i + 1)
    else Lead(text, i) + [text[i]] + Spaced(text, i + 1)
  }

  function WordEnd(text: Bytes, i: nat): (e: nat)
    requires i <= |text|
    ensures i <= e <= |text|
    ensures forall j | i <= j < e :: !IsSpace(text[j])
    ensures e == |text| || IsSpace(text[e])
    decreases |text| - i
  {
    if i == |text| || IsSpace(text[i]) then i else WordEnd(text, i + 1)
  }

  /** The whitespace-separated words. */
  function Words(text: Bytes, i: nat): seq<Bytes>
    requires i <= |text|
    decreases |text| - i
  {
    if i == |text| then []
    else if IsSpace(text[i]) then Words(text, i + 1)
    else [text[i..WordEnd(text, i)]] + Words(text, WordEnd(text, i))
  }

  lemma LetterWord(text: Bytes, i: nat)
    requires i + 1 < |text| && !IsSpace(text[i]) && IsSpace(text[i + 1])
    ensures Words(text, i) == [[text[i]]] + Words(text, i + 2)
  {
    assert WordEnd(text, i) == WordEnd(text, i + 1) == i + 1;
    assert Words(text, i + 1) == Words(text, i + 2);
    assert text[i..i + 1] == [text[i]];
  }

  lemma NoWords(text: Bytes)
    ensures Words(text, |text|) == []
  {
  }

  /** Blanks, tabs, line feeds and carriage returns separate words: "a b\tc\nd\r". */
  lemma FourWords()
    ensures Words([0x61, 0x20, 0x62, 0x09, 0x63, 0x0A, 0x64, 0x0D], 0) == [[0x61], [0x62], [0x63], [0x64]]
  {
    hide Words;
    var text := [0x61, 0x20, 0x62, 0x09, 0x63, 0x0A, 0x64, 0x0D];
    LetterWord(text, 0);
    LetterWord(text, 2);
    LetterWord(text, 4);
    LetterWord(text, 6);
    NoWords(text);
  }

  /** The words joined by single spaces. */
  function Join(ws: seq<Bytes>): Bytes
  {
    if ws == [] then [] else if |ws| == 1 then ws[0] else ws[0] + [SPACE] + Join(ws[1..])
  }

  ghost predicate Blank(text: Bytes) { forall c | c in text :: IsSpace(c) }

  lemma NoLead(text: Bytes, i: nat)
    requires 0 < i < |text| && !IsSpace(text[i - 1])
    ensures Lead(text, i) == []
  {
  }

  lemma TakeFirst(text: Bytes, i: nat, n: nat)
    requires n > 1 && i + n <= |text|
    ensures [text[i]] + text[i + 1..i + n] == text[i..i + n]
  {
  }

  lemma Regroup(w: Bytes, a: Bytes, r: Bytes, z: Bytes)
    ensures w + a + ([] + r + z) == w + (a + r) + z
  {
  }

  /** A stretch without whitespace is copied. */
  lemma {:induction false} SpacedRun(text: Bytes, i: nat, n: nat)
    requires 1 <= n && i + n <= |text| && forall j | i <= j < i + n :: !IsSpace(text[j])
    ensures Spaced(text, i) == Lead(text, i) + text[i..i + n] + Spaced(text, i + n)
    decreases n
  {
    hide IsSpace;
    assert Spaced(text, i) == Lead(text, i) + [text[i]] + Spaced(text, i + 1);
    if n > 1 {
      NoLead(text, i + 1);
      hide Spaced, Lead;
      SpacedRun(text, i + 1, n - 1);
      TakeFirst(text, i, n);
      Regroup(Lead(text, i), [text[i]], text[i + 1..i + n], Spaced(text, i + n));
    } else {
      hide Spaced, Lead;
      assert text[i..i + 1] == [text[i]];
    }
  }

  lemma WordAt(text: Bytes, i: nat)
    requires i < |text| && !IsSpace(text[i]) && WordStart(text, i)
    ensures Lead(text, i) == [SPACE] && i < WordEnd(text, i)
    ensures Words(text, i) == [text[i..WordEnd(text, i)]] + Words(text, WordEnd(text, i))
  {
  }

  lemma BlankAt(text: Bytes, i: nat)
    requires i <= |text| && (i < |text| ==> IsSpace(text[i]))
    ensures Spaced(text, i) == if i == |text| then [] else Spaced(text, i + 1)
    ensures Words(text, i) == if i == |text| then [] else Words(text, i + 1)
  {
  }

  lemma WordBreak(text: Bytes, e: nat)
    requires 0 < e < |text| && IsSpace(text[e - 1])
    ensures WordStart(text, e)
  {
  }

  lemma PrependWord(w: Bytes, ws: seq<Bytes>)
    ensures [SPACE] + w + (if ws == [] then [] else [SPACE] + Join(ws)) == [SPACE] + Join([w] + ws)
  {
    assert ([w] + ws)[1..] == ws;
  }

  /** Spaced is the words, each with one space before it. */
  lemma {:induction false} SpacedIsWords(text: Bytes, i: nat)
    requires i <= |text| && (i < |text| && !IsSpace(text[i]) ==> WordStart(text, i))
    ensures Spaced(text, i) == if Words(text, i) == [] then [] else [SPACE] + Join(Words(text, i))
    decreases |text| - i
  {
    hide Spaced, WordEnd, Words, Lead, IsSpace, WordStart, Join;
    if i == |text| || IsSpace(text[i]) {
      BlankAt(text, i);
      if i < |text| {
        if i + 1 < |text| { WordBreak(text, i + 1); }
        SpacedIsWords(text, i + 1);
      }
    } else {
      WordAt(text, i);
      var e := WordEnd(text, i);
      SpacedRun(text, i, e - i);
      SpacedIsWords(text, e);
      PrependWord(text[i..e], Words(text, e));
    }
  }

  /** There is a word exactly when the text is not blank. */
  lemma {:induction false} NoWordsIffBlank(text: Bytes, i: nat)
    requires i <= |text|
    ensures Words(text, i) == [] <==> Blank(text[i..])
    decreases |text| - i
  {
    if i < |text| {
      assert text[i..] == [text[i]] + text[i + 1..];
      NoWordsIffBlank(text, i + 1);
      assert text[i] in text[i..];
    }
  }

  // ----- What the round trip asks of the vocabulary -----

  predicate Found(t: Tok, s: Bytes) { StrToToken(t, s) != t.cfg.unk }

  predicate Ordinary(t: Tok, id: nat) { id < |t.vocab| && id != t.cfg.bos && id != t.cfg.eos }

  /** Merging concatenates strings, never crosses a word start, and neither uses nor makes a
      byte-fallback or special token. */
  predicate RuleOk(t: Tok, r: Rule)
  {
    && r.left < |t.vocab| && r.right < |t.vocab| && Ordinary(t, r.result)
    && t.vocab[r.result] == t.vocab[r.left] + t.vocab[r.right]
    && !HasMarkerPrefix(t.vocab[r.right])
    && !IsHex(t.vocab[r.left]) && !IsHex(t.vocab[r.right]) && !IsHex(t.vocab[r.result])
  }

  predicate NoSpaceIn(s: Bytes) { forall c | c in s :: !IsSpace(c) }

  /** One character by its UTF-8 lead byte. */
  predicate IsChar(s: Bytes) { s != [] && |s| == Utf8Len(s[0]) }

  /** A code point in UTF-8 (section 3 of RFC 3629). */
  function Utf8(cp: bv32): Bytes
  {
    if cp < 0x80 then [cp as bv8]
    else if cp < 0x800 then [(0xC0 | (cp >> 6)) as bv8, (0x80 | (cp & 0x3F)) as bv8]
    else if cp < 0x1_0000 then
      [(0xE0 | ((cp >> 12) & 0x0F)) as bv8, (0x80 | ((cp >> 6) & 0x3F)) as bv8, (0x80 | (cp & 0x3F)) as bv8]
    else
      [(0xF0 | ((cp >> 18) & 0x07)) as bv8, (0x80 | ((cp >> 12) & 0x3F)) as bv8,
       (0x80 | ((cp >> 6) & 0x3F)) as bv8, (0x80 | (cp & 0x3F)) as bv8]
  }

  /** The lead byte of a character's encoding tells how long it is, and every other byte stands alone. */
  lemma CharacterLength(cp: bv32, b: bv8)
    ensures cp < 0x11_0000 ==> IsChar(Utf8(cp))
    ensures 0x80 <= b < 0xC0 || b >= 0xF8 ==> Utf8Len(b) == 1
  {
  }

  /** The strings pre-tokenisation looks up: characters, marked characters, the marker, single
      bytes and their fallback spellings. */
  predicate Queried(s: Bytes)
  {
    || IsChar(s) || (HasMarkerPrefix(s) && IsChar(s[3..])) || s == MARKER || |s| == 1
    || (IsHex(s) && s == Fallback(HexByte(s)))
  }

  /** No lookup yields a special token or one with whitespace. */
  ghost predicate LookupsOk(t: Tok)
  {
    forall s: Bytes | Queried(s) && Found(t, s) :: Ordinary(t, StrToToken(t, s)) && NoSpaceIn(s)
  }

  ghost predicate BytesFound(t: Tok)
  {
    forall b: bv8 | !IsSpace(b) :: Found(t, [b]) || Found(t, Fallback(b))
  }

  ghost predicate Suitable(t: Tok)
  {
    && |t.rules| <= EMPTY && |t.vocab| <= MAX_VOCAB
    && LookupsOk(t) && BytesFound(t) && Found(t, MARKER)
    && (forall k | 0 <= k < |t.rules| :: RuleOk(t, t.rules[k]))
  }

  predicate MarkerAt(s: Bytes, p: nat) { p <= |s| && HasMarkerPrefix(s[p..]) }

  ghost predicate HasMarker(s: Bytes) { exists p: nat :: MarkerAt(s, p) }

  // ----- Rendering: every token decoded with its space -----

  function Full(t: Tok, id: nat): Bytes { Piece(t, id, false) }

  function Render(t: Tok, ids: seq<nat>): Bytes
  {
    if ids == [] then [] else Full(t, ids[0]) + Render(t, ids[1..])
  }

  ghost predicate AllOrdinary(t: Tok, ids: seq<nat>) { forall k | 0 <= k < |ids| :: Ordinary(t, ids[k]) }

  lemma {:induction false} RenderConcat(t: Tok, a: seq<nat>, b: seq<nat>)
    ensures Render(t, a + b) == Render(t, a) + Render(t, b)
  {
    if a == [] {
      assert a + b == b;
    } else {
      assert (a + b)[1..] == a[1..] + b;
      RenderConcat(t, a[1..], b);
    }
  }

  lemma RenderOne(t: Tok, id: nat)
    ensures Render(t, [id]) == Full(t, id)
  {
    assert [id][1..] == [];
  }

  lemma FoundString(t: Tok, s: Bytes)
    requires Suitable(t) && Queried(s) && Found(t, s)
    ensures Ordinary(t, StrToToken(t, s)) && t.vocab[StrToToken(t, s)] == s && NoSpaceIn(s)
  {
  }

  lemma MarkerInside(a: Bytes, m: Bytes, b: Bytes)
    requires HasMarkerPrefix(m)
    ensures HasMarker(a + m + b)
  {
    var s := a + m + b;
    assert s[|a|..][0] == m[0] && s[|a|..][1] == m[1] && s[|a|..][2] == m[2];
    assert MarkerAt(s, |a|);
  }

  lemma CharFound(t: Tok, text: Bytes, i: nat, m: nat)
    requires Suitable(t) && !HasMarker(text) && i + m <= |text| && Found(t, text[i..i + m])
    requires i < |text| && m == Utf8Len(text[i])
    ensures var id := StrToToken(t, text[i..i + m]);
            && Ordinary(t, id) && Full(t, id) == text[i..i + m]
            && forall j | i <= j < i + m :: !IsSpace(text[j])
  {
    hide StrToToken, Suitable, IsSpace, HasMarker;
    var s := text[i..i + m];
    FoundString(t, s);
    assert text == text[..i] + s + text[i + m..];
    if HasMarkerPrefix(s) { MarkerInside(text[..i], s, text[i + m..]); }
    forall j | i <= j < i + m ensures !IsSpace(text[j]) { assert text[j] == s[j - i]; }
  }

  lemma BytePiece(t: Tok, b: bv8)
    requires Suitable(t) && !IsSpace(b)
    ensures Ordinary(t, ByteToken(t, b)) && Full(t, ByteToken(t, b)) == [b]
  {
    assert Found(t, [b]) || Found(t, Fallback(b));
    FallbackReadsBack(b);
    if Found(t, [b]) { FoundString(t, [b]); } else { FoundString(t, Fallback(b)); }
  }

  /** The token of the character at i decodes to that character. */
  lemma CharPiece(t: Tok, text: Bytes, i: nat)
    requires Suitable(t) && !HasMarker(text) && i < |text| && !IsSpace(text[i])
    ensures Ordinary(t, CharId(t, text, i))
    ensures Full(t, CharId(t, text, i)) == text[i..i + CharLen(t, text, i)]
    ensures forall j | i <= j < i + CharLen(t, text, i) :: !IsSpace(text[j])
  {
    hide Suitable, HasMarker, StrToToken, Full, Ordinary, Utf8Len, IsSpace, ByteToken;
    if WholeChar(t, text, i) {
      CharFound(t, text, i, Utf8Len(text[i]));
    } else {
      hide WholeChar;
      BytePiece(t, text[i]);
      assert text[i..i + 1] == [text[i]];
    }
  }

  /** The token of a marker and more decodes to a space and the rest. */
  lemma MarkedString(t: Tok, rest: Bytes)
    requires Suitable(t) && IsChar(rest) && Found(t, MARKER + rest)
    ensures var id := StrToToken(t, MARKER + rest);
            && Ordinary(t, id) && Full(t, id) == [SPACE] + rest && HasMarkerPrefix(t.vocab[id]) && NoSpaceIn(rest)
  {
    hide StrToToken, Suitable, IsSpace, Utf8Len;
    var s := MARKER + rest;
    assert s[3..] == rest;
    FoundString(t, s);
    forall c | c in rest ensures !IsSpace(c) { assert c in s; }
  }

  /** A token for marker and character decodes to a space and that character. */
  lemma MarkedPiece(t: Tok, text: Bytes, i: nat)
    requires Suitable(t) && i < |text| && MarkedChar(t, text, i)
    ensures var n := Utf8Len(text[i]);
            var id := StrToToken(t, MARKER + text[i..i + n]);
            && Ordinary(t, id) && Full(t, id) == [SPACE] + text[i..i + n] && HasMarkerPrefix(t.vocab[id])
            && forall j | i <= j < i + n :: !IsSpace(text[j])
  {
    hide StrToToken, Suitable, IsSpace, Utf8Len, Full, HasMarkerPrefix, Ordinary;
    var s := text[i..i + Utf8Len(text[i])];
    assert s[0] == text[i];
    MarkedString(t, s);
    forall j | i <= j < i + |s| ensures !IsSpace(text[j]) { assert text[j] == s[j - i]; }
  }

  lemma MarkerPiece(t: Tok)
    requires Suitable(t)
    ensures var id := StrToToken(t, MARKER);
            Ordinary(t, id) && Full(t, id) == [SPACE] && HasMarkerPrefix(t.vocab[id])
  {
    FoundString(t, MARKER);
    assert MARKER[3..] == [];
  }

  lemma MarkerLeadRender(t: Tok, text: Bytes, i: nat)
    requires Suitable(t) && i < |text|
    ensures Render(t, MarkerLead(t, text, i)) == Lead(text, i) && AllOrdinary(t, MarkerLead(t, text, i))
  {
    hide Suitable, StrToToken, Full, Ordinary, IsSpace;
    MarkerPiece(t);
    RenderOne(t, StrToToken(t, MARKER));
  }

  lemma {:induction false} PreTokPlain(t: Tok, text: Bytes, i: nat)
    requires Suitable(t) && !HasMarker(text) && i < |text| && !IsSpace(text[i])
    requires !(WordStart(text, i) && MarkedChar(t, text, i))
    ensures Render(t, PreTok(t, text, i)) == Spaced(text, i) && AllOrdinary(t, PreTok(t, text, i))
    decreases |text| - i, 0
  {
    hide MarkedChar, WordStart;
    hide Suitable, HasMarker, StrToToken, Full, Ordinary, Utf8Len, IsSpace, CharId, CharLen, PreTok, Spaced, Lead,
         MarkerLead, Render;
    var id, n := CharId(t, text, i), CharLen(t, text, i);
    var rest, lead := PreTok(t, text, i + n), MarkerLead(t, text, i);
    PreTokAtPlain(t, text, i);
    CharPiece(t, text, i);
    MarkerLeadRender(t, text, i);
    PreTokRender(t, text, i + n);
    SpacedRun(text, i, n);
    RenderConcat(t, lead + [id], rest);
    RenderConcat(t, lead, [id]);
    RenderOne(t, id);
  }

  /** Pre-tokenisation renders to the spaced text. */
  lemma {:induction false} PreTokRender(t: Tok, text: Bytes, i: nat)
    requires Suitable(t) && !HasMarker(text) && i <= |text|
    ensures Render(t, PreTok(t, text, i)) == Spaced(text, i) && AllOrdinary(t, PreTok(t, text, i))
    decreases |text| - i
  {
    hide Suitable, HasMarker, StrToToken, Full, Ordinary, Utf8Len, IsSpace;
    if i < |text| {
      if IsSpace(text[i]) {
        PreTokRender(t, text, i + 1);
      } else if WordStart(text, i) && MarkedChar(t, text, i) {
        PreTokMarked(t, text, i);
      } else {
        PreTokPlain(t, text, i);
      }
    }
  }

  lemma {:induction false} PreTokMarked(t: Tok, text: Bytes, i: nat)
    requires Suitable(t) && !HasMarker(text) && i < |text| && !IsSpace(text[i])
    requires WordStart(text, i) && MarkedChar(t, text, i)
    ensures Render(t, PreTok(t, text, i)) == Spaced(text, i) && AllOrdinary(t, PreTok(t, text, i))
    decreases |text| - i, 0
  {
    hide Suitable, HasMarker, StrToToken, Full, Ordinary, Utf8Len, IsSpace, PreTok, Spaced;
    var n := Utf8Len(text[i]);
    var id, rest := StrToToken(t, MARKER + text[i..i + n]), PreTok(t, text, i + n);
    MarkedPiece(t, text, i);
    PreTokRender(t, text, i + n);
    PreTokAtMarked(t, text, i);
    assert Lead(text, i) == [SPACE];
    SpacedRun(text, i, n);
    hide MarkedChar, Lead, WordStart;
    RenderConcat(t, [id], rest);
    RenderOne(t, id);
  }

  /** The first token begins with the marker. */
  predicate FirstMarked(t: Tok, ids: seq<nat>)
  {
    ids != [] && Ordinary(t, ids[0]) && HasMarkerPrefix(t.vocab[ids[0]])
  }

  lemma PreTokFirstHere(t: Tok, text: Bytes, i: nat)
    requires Suitable(t) && i < |text| && !IsSpace(text[i]) && WordStart(text, i)
    ensures FirstMarked(t, PreTok(t, text, i))
  {
    hide Suitable, StrToToken, IsSpace, PreTok, MarkedChar, HasMarkerPrefix, Full, Ordinary, CharId, CharLen,
         WordStart, Utf8Len;
    if MarkedChar(t, text, i) {
      MarkedPiece(t, text, i);
      PreTokAtMarked(t, text, i);
    } else {
      MarkerPiece(t);
      PreTokAtPlain(t, text, i);
      assert MarkerLead(t, text, i) == [StrToToken(t, MARKER)];
    }
  }

  lemma NotBlank(text: Bytes, i: nat) returns (c: nat)
    requires i <= |text| && !Blank(text[i..])
    ensures i <= c < |text| && !IsSpace(text[c])
  {
    var b :| b in text[i..] && !IsSpace(b);
    var k :| 0 <= k < |text[i..]| && text[i..][k] == b;
    c := i + k;
  }

  lemma BlankTail(text: Bytes, i: nat)
    requires i < |text| && !Blank(text[i..]) && IsSpace(text[i])
    ensures !Blank(text[i + 1..])
  {
    assert text[i..] == [text[i]] + text[i + 1..];
  }

  /** Text that is not blank starts with a marked token. */
  lemma {:induction false} PreTokFirst(t: Tok, text: Bytes, i: nat)
    requires Suitable(t) && i <= |text| && !Blank(text[i..]) && (i == 0 || IsSpace(text[i - 1]))
    ensures FirstMarked(t, PreTok(t, text, i))
    decreases |text| - i
  {
    hide Suitable, StrToToken, FirstMarked, Blank, PreTok, IsSpace;
    var c := NotBlank(text, i);
    if IsSpace(text[i]) {
      BlankTail(text, i);
      SkipSpace(t, text, i);
      PreTokFirst(t, text, i + 1);
    } else {
      PreTokFirstHere(t, text, i);
    }
  }

  // ----- Spaced text has no marker of its own -----

  lemma SpacedHead(text: Bytes, i: nat)
    requires i <= |text|
    ensures i < |text| && !IsSpace(text[i]) && !WordStart(text, i) ==>
              Spaced(text, i) == [text[i]] + Spaced(text, i + 1)
    ensures i > 0 && (i < |text| ==> IsSpace(text[i]) || WordStart(text, i)) ==>
              Spaced(text, i) == [] || Spaced(text, i)[0] == SPACE
    decreases |text| - i
  {
    if i < |text| && IsSpace(text[i]) { SpacedHead(text, i + 1); }
  }

  lemma {:induction false} SpacedKeepsMarkerFree(text: Bytes, i: nat, p: nat)
    requires i <= |text| && MarkerAt(Spaced(text, i), p)
    ensures HasMarker(text)
    decreases |text| - i
  {
    var s := Spaced(text, i);
    if i < |text| {
      var rest := Spaced(text, i + 1);
      if IsSpace(text[i]) {
        SpacedKeepsMarkerFree(text, i + 1, p);
      } else {
        var k := |Lead(text, i)|;
        assert s == Lead(text, i) + [text[i]] + rest;
        if p > k {
          assert s[p..] == rest[p - k - 1..];
          SpacedKeepsMarkerFree(text, i + 1, p - k - 1);
        } else {
          assert s[p..][0] == s[p];
          assert p == k && text[i] == 0xE2 && rest[0] == s[p + 1] == 0x96 && rest[1] == s[p + 2] == 0x81;
          SpacedHead(text, i + 1);
          assert text[i + 1] == 0x96;
          SpacedHead(text, i + 2);
          assert text[i + 2] == 0x81;
          assert MarkerAt(text, i);
        }
      }
    }
  }

  // ----- Merging keeps the rendering -----

  /** Where no marker appears, a merged token decodes to its parts in order. */
  lemma MergedPiece(t: Tok, r: Rule)
    requires RuleOk(t, r) && Ordinary(t, r.left) && Ordinary(t, r.right)
    ensures !HasMarkerPrefix(Full(t, r.left) + Full(t, r.right)) ==>
              Full(t, r.result) == Full(t, r.left) + Full(t, r.right)
    ensures HasMarkerPrefix(t.vocab[r.left]) ==> HasMarkerPrefix(t.vocab[r.result])
  {
    var l, x := t.vocab[r.left], t.vocab[r.right];
    if HasMarkerPrefix(l) {
      assert (l + x)[3..] == l[3..] + x;
    }
  }

  /** The rule a mergeable pair matches. */
  lemma PairRule(t: Tok, ids: seq<nat>, i: nat) returns (r: Rule)
    requires Suitable(t) && AllOrdinary(t, ids) && i + 1 < |ids| && PairRank(t.rules, ids, i) != EMPTY
    ensures r == t.rules[PairRank(t.rules, ids, i)] && RuleOk(t, r)
    ensures Ordinary(t, r.left) && Ordinary(t, r.right) && Ordinary(t, r.result)
    ensures r.left == ids[i] && r.right == ids[i + 1]
  {
    r := t.rules[PairRank(t.rules, ids, i)];
    assert RuleOk(t, r);
    hide Suitable;
  }

  /** A sequence around position i, before and after the merge. */
  lemma SplitPair(rules: seq<Rule>, ids: seq<nat>, i: nat)
    requires |rules| <= EMPTY && i + 1 < |ids| && PairRank(rules, ids, i) != EMPTY
    ensures ids == ids[..i] + ([ids[i]] + ([ids[i + 1]] + ids[i + 2..]))
    ensures MergeAt(rules, ids, i) == ids[..i] + ([rules[PairRank(rules, ids, i)].result] + ids[i + 2..])
  {
  }

  lemma RenderPair(t: Tok, a: seq<nat>, x: nat, y: nat, b: seq<nat>)
    ensures Render(t, a + ([x] + ([y] + b))) == Render(t, a) + (Full(t, x) + Full(t, y)) + Render(t, b)
  {
    RenderConcat(t, a, [x] + ([y] + b));
    RenderConcat(t, [x], [y] + b);
    RenderConcat(t, [y], b);
    RenderOne(t, x);
    RenderOne(t, y);
    hide Render, Full;
  }

  lemma RenderSingle(t: Tok, a: seq<nat>, x: nat, b: seq<nat>)
    ensures Render(t, a + ([x] + b)) == Render(t, a) + Full(t, x) + Render(t, b)
  {
    RenderConcat(t, a, [x] + b);
    RenderConcat(t, [x], b);
    RenderOne(t, x);
    hide Render, Full;
  }

  /** Merging a pair keeps what the sequence renders to. */
  lemma MergeKeepsRender(t: Tok, ids: seq<nat>, i: nat)
    requires Suitable(t) && AllOrdinary(t, ids) && !HasMarker(Render(t, ids))
    requires i + 1 < |ids| && PairRank(t.rules, ids, i) != EMPTY
    ensures Render(t, MergeAt(t.rules, ids, i)) == Render(t, ids)
  {
    var r := PairRule(t, ids, i);
    SplitPair(t.rules, ids, i);
    hide Suitable, Ordinary, AllOrdinary, HasMarker, MergeAt, PairRank, Render, HasMarkerPrefix, Full, RuleOk;
    MergedPiece(t, r);
    var a, b := ids[..i], ids[i + 2..];
    RenderPair(t, a, ids[i], ids[i + 1], b);
    RenderSingle(t, a, r.result, b);
    var m := Full(t, ids[i]) + Full(t, ids[i + 1]);
    if HasMarkerPrefix(m) { MarkerInside(Render(t, a), m, Render(t, b)); }
  }

  lemma MergeKeepsFirst(t: Tok, ids: seq<nat>, i: nat)
    requires Suitable(t) && AllOrdinary(t, ids) && i + 1 < |ids| && PairRank(t.rules, ids, i) != EMPTY
    ensures FirstMarked(t, ids) ==> FirstMarked(t, MergeAt(t.rules, ids, i))
  {
    hide Suitable, RuleOk, Full, AllOrdinary, PairRank;
    var r := PairRule(t, ids, i);
    MergedPiece(t, r);
  }

  lemma StaysOrdinary(t: Tok, ids: seq<nat>, i: nat)
    requires |t.rules| <= EMPTY && AllOrdinary(t, ids)
    requires i + 1 < |ids| && PairRank(t.rules, ids, i) != EMPTY
    requires Ordinary(t, t.rules[PairRank(t.rules, ids, i)].result)
    ensures AllOrdinary(t, MergeAt(t.rules, ids, i))
  {
    hide Ordinary, PairRank;
    var out := MergeAt(t.rules, ids, i);
    forall k | 0 <= k < |out| ensures Ordinary(t, out[k]) {
      if k < i { assert out[k] == ids[k]; } else if k > i { assert out[k] == ids[k + 1]; }
    }
  }

  lemma SuitableRules(t: Tok)
    requires Suitable(t)
    ensures |t.rules| <= EMPTY
  {
  }

  lemma MergeKeepsOrdinary(t: Tok, ids: seq<nat>, i: nat)
    requires Suitable(t) && AllOrdinary(t, ids) && i + 1 < |ids| && PairRank(t.rules, ids, i) != EMPTY
    ensures AllOrdinary(t, MergeAt(t.rules, ids, i))
  {
    var r := PairRule(t, ids, i);
    hide Suitable, RuleOk;
    StaysOrdinary(t, ids, i);
  }

  /** The whole merge loop keeps what the sequence renders to, and a marker at its start. */
  lemma {:induction false} MergeAllKeeps(t: Tok, ids: seq<nat>)
    requires Suitable(t) && AllOrdinary(t, ids) && !HasMarker(Render(t, ids))
    ensures var out := MergeAll(t.rules, ids);
            Render(t, out) == Render(t, ids) && AllOrdinary(t, out) && (FirstMarked(t, ids) ==> FirstMarked(t, out))
    decreases |ids|
  {
    hide Suitable, AllOrdinary, HasMarker, Render, FirstMarked, MergeAt, PairRank;
    SuitableRules(t);
    SomePairHasBest(t.rules, ids);
    if NoPair(t.rules, ids) {
      DoneIsFixed(t.rules, ids);
    } else {
      var i: nat :| IsBest(t.rules, ids, i);
      MergeAllStep(t.rules, ids, i);
      MergeKeepsRender(t, ids, i);
      MergeKeepsFirst(t, ids, i);
      MergeKeepsOrdinary(t, ids, i);
      MergeAllKeeps(t, MergeAt(t.rules, ids, i));
    }
  }

  // ----- Decoding what encoding produced -----

  /** After the first position decoding is rendering. */
  lemma {:induction false} DecodedIsRender(t: Tok, ids: seq<nat>, k: nat)
    requires 1 <= k <= |ids|
    ensures Decoded(t, ids, k) == Render(t, ids[k..])
    decreases |ids| - k
  {
    hide Piece;
    if k < |ids| {
      DecodedIsRender(t, ids, k + 1);
      assert ids[k..][1..] == ids[k + 1..];
    }
  }

  /** The sequence between the optional begin and end tokens. */
  function Wrap(t: Tok, ids: seq<nat>): seq<nat>
  {
    (if t.cfg.addBos then [t.cfg.bos] else []) + ids + (if t.cfg.addEos then [t.cfg.eos] else [])
  }

  lemma WrapEnd(t: Tok, ids: seq<nat>)
    ensures Render(t, ids + if t.cfg.addEos then [t.cfg.eos] else []) == Render(t, ids)
  {
    if t.cfg.addEos {
      RenderConcat(t, ids, [t.cfg.eos]);
      RenderOne(t, t.cfg.eos);
    } else {
      assert ids + [] == ids;
    }
  }

  /** Decoding from the first position on. */
  lemma DecodedFirst(t: Tok, ids: seq<nat>)
    requires ids != []
    ensures Decoded(t, ids, 0) == Piece(t, ids[0], true) + Render(t, ids[1..])
  {
    hide Piece, Render;
    DecodedIsRender(t, ids, 1);
  }

  lemma FirstPiece(t: Tok, ids: seq<nat>)
    requires FirstMarked(t, ids)
    ensures Full(t, ids[0]) == [SPACE] + Piece(t, ids[0], true)
  {
  }

  /** Behind a begin token everything is rendered; without one the first marker loses its space. */
  lemma WrapDecoded(t: Tok, ids: seq<nat>)
    requires FirstMarked(t, ids)
    ensures Render(t, ids) != [] && Render(t, ids)[0] == SPACE
    ensures Decoded(t, Wrap(t, ids), 0) == if t.cfg.addBos then Render(t, ids) else Render(t, ids)[1..]
  {
    hide Decoded, Render, Full, HasMarkerPrefix;
    var w, tail := Wrap(t, ids), if t.cfg.addEos then [t.cfg.eos] else [];
    WrapEnd(t, ids);
    DecodedFirst(t, w);
    FirstPiece(t, ids);
    RenderConcat(t, [ids[0]], ids[1..] + tail);
    RenderOne(t, ids[0]);
    assert ids + tail == [ids[0]] + (ids[1..] + tail);
    assert w[1..] == if t.cfg.addBos then ids + tail else ids[1..] + tail;
  }

  /** The collected ids: nodes whose id is NODE_NONE count as deleted. */
  function Live(ids: seq<nat>): (r: seq<nat>)
    ensures |r| <= |ids|
    ensures (forall k | 0 <= k < |ids| :: ids[k] != NODE_NONE) ==> r == ids
  {
    if ids == [] then []
    else
      var last := ids[|ids| - 1];
      var most := ids[..|ids| - 1];
      assert ids == most + [last];
      if last == NODE_NONE then Live(most) else Live(most) + [last]
  }

  datatype Status = Ok | Overflow | Invalid

  /** What tokenizer_encode stores for a text that is neither empty nor too long. */
  ghost function Encoded(t: Tok, text: Bytes): seq<nat>
    requires |t.rules| <= EMPTY
  {
    Wrap(t, Live(MergeAll(t.rules, PreTok(t, text, 0))))
  }

  /** tokenizer_encode into a buffer of maxIds ids. */
  ghost function Encode(t: Tok, text: Bytes, maxIds: nat): (Status, seq<nat>)
    requires |t.rules| <= EMPTY
  {
    if text == [] then (Ok, if t.cfg.addBos then [t.cfg.bos] else [])
    else if |text| > MAX_TEXT || (PreTok(t, text, 0) != [] && |Encoded(t, text)| > maxIds) then (Overflow, [])
    else if PreTok(t, text, 0) == [] then (Invalid, [])
    else (Ok, Encoded(t, text))
  }

  /** The ids stored never exceed the caller's buffer, but for the begin token of an empty text, which
      is stored without looking at the buffer's size. */
  lemma FitsIff(t: Tok, text: Bytes, maxIds: nat)
    requires |t.rules| <= EMPTY
    ensures |Encode(t, text, maxIds).1| <= maxIds <==> !(text == [] && t.cfg.addBos && maxIds == 0)
  {
    hide PreTok, Encoded;
  }

  /** A small usable vocabulary: the special tokens, the marker, the 256 byte tokens and "a", "b", "ab",
      "aa". */
  function ByteVocab(): (vocab: seq<Bytes>)
    ensures |vocab| == 264 && vocab[3] == MARKER
    ensures forall b: bv8 :: vocab[4 + b as nat] == Fallback(b)
    ensures vocab[260] == [0x61] && vocab[261] == [0x62] && vocab[262] == [0x61, 0x62] && vocab[263] == [0x61, 0x61]
  {
    [[], [0x3C, 0x73, 0x3E], [0x3C, 0x2F, 0x73, 0x3E], MARKER]
    + seq(256, k requires 0 <= k < 256 => Fallback(k as bv8))
    + [[0x61], [0x62], [0x61, 0x62], [0x61, 0x61]]
  }

  /** That vocabulary with the rules that merge "a" and "b", and "a" and "a". */
  function ByteTok(): Tok
  {
    Tok(ByteVocab(), [Rule(260, 261, 262), Rule(260, 260, 263)], Config(1, 2, 0, 0, true, false))
  }

  lemma ByteVocabFilled(i: nat)
    requires 1 <= i < 264
    ensures ByteVocab()[i] != ByteVocab()[0]
  {
    hide HexDigit;
  }

  lemma ByteVocabFound(i: nat)
    requires 1 <= i < 264
    ensures Found(ByteTok(), ByteVocab()[i])
  {
    hide ByteVocab;
    var t := ByteTok();
    assert FindStr(t.vocab, t.vocab[i], 0) != 0 || t.vocab[0] == t.vocab[i];
    ByteVocabFilled(i);
  }

  lemma AsciiIsOne(b: bv8)
    requires b < 0x80
    ensures Utf8Len(b) == 1
  {
    assert b & 0x80 == 0;
  }

  lemma DigitPlain(n: bv8)
    requires n <= 15
    ensures !IsSpace(HexDigit(n))
  {
  }

  lemma FallbackPlain(b: bv8)
    ensures NoSpaceIn(Fallback(b))
  {
    assert b >> 4 <= 15 && b & 0x0F <= 15;
    DigitPlain(b >> 4);
    DigitPlain(b & 0x0F);
  }

  lemma ByteVocabularyEntry(s: Bytes)
    requires Queried(s)
    ensures s != [0x3C, 0x73, 0x3E] && s != [0x3C, 0x2F, 0x73, 0x3E]
    ensures s == MARKER ==> NoSpaceIn(s)
    ensures forall b: bv8 | s == Fallback(b) :: NoSpaceIn(s)
    ensures s == [0x61] || s == [0x62] || s == [0x61, 0x62] || s == [0x61, 0x61] ==> NoSpaceIn(s)
  {
    AsciiIsOne(0x3C);
    forall b: bv8 | s == Fallback(b) ensures NoSpaceIn(s) {
      FallbackPlain(b);
    }
  }

  lemma ByteVocabOrdinary(s: Bytes)
    requires Queried(s) && Found(ByteTok(), s)
    ensures Ordinary(ByteTok(), StrToToken(ByteTok(), s)) && NoSpaceIn(s)
  {
    hide FindStr, HexDigit, IsHex;
    var t := ByteTok();
    assert s == t.vocab[StrToToken(t, s)];
    ByteVocabularyEntry(s);
  }

  /** This vocabulary meets the assumptions of the round trip. */
  lemma ByteVocabulary()
    ensures Suitable(ByteTok())
  {
    hide ByteVocab, FindStr, Queried, StrToToken, Found, NoSpaceIn, Fallback, IsSpace;
    var t := ByteTok();
    assert RuleOk(t, t.rules[0]) by { assert t.vocab[262] == t.vocab[260] + t.vocab[261]; }
    assert RuleOk(t, t.rules[1]) by { assert t.vocab[263] == t.vocab[260] + t.vocab[260]; }
    ByteVocabFound(3);
    assert BytesFound(t) by {
      forall b: bv8 ensures Found(t, Fallback(b)) { ByteVocabFound(4 + b as nat); }
    }
    assert LookupsOk(t) by {
      forall s: Bytes | Queried(s) && Found(t, s) ensures Ordinary(t, StrToToken(t, s)) && NoSpaceIn(s) {
        ByteVocabOrdinary(s);
      }
    }
  }

  /** It happens: one id goes to a buffer without room. */
  lemma EmptyTextOverruns()
    ensures Suitable(ByteTok()) && Encode(ByteTok(), [], 0) == (Ok, [1])
  {
    hide Suitable, ByteVocab;
    ByteVocabulary();
  }

  lemma OrdinaryLive(t: Tok, ids: seq<nat>)
    requires Suitable(t) && AllOrdinary(t, ids)
    ensures Live(ids) == ids
  {
    forall k | 0 <= k < |ids| ensures ids[k] != NODE_NONE { assert Ordinary(t, ids[k]); }
  }

  /** The round trip: decoding the encoding of a text gives its words joined by single spaces,
      with one space in front exactly when a begin token was added. */
  lemma RoundTrip(t: Tok, text: Bytes, maxIds: nat)
    requires Suitable(t) && !HasMarker(text) && !Blank(text) && |text| <= MAX_TEXT
    requires |Encoded(t, text)| <= maxIds
    ensures Encode(t, text, maxIds) == (Ok, Encoded(t, text))
    ensures Decoded(t, Encoded(t, text), 0) == (if t.cfg.addBos then [SPACE] else []) + Join(Words(text, 0))
  {
    var ids := PreTok(t, text, 0);
    SuitableRules(t);
    PreTokRender(t, text, 0);
    assert text[0..] == text;
    PreTokFirst(t, text, 0);
    assert ids != [] && text != [];
    var out := MergeAll(t.rules, ids);
    hide Suitable, PreTok, FirstMarked, Render, Wrap, Join, Words, Spaced, Decoded, MergeAll;
    if HasMarker(Spaced(text, 0)) {
      var p: nat :| MarkerAt(Spaced(text, 0), p);
      SpacedKeepsMarkerFree(text, 0, p);
    }
    MergeAllKeeps(t, ids);
    WrapDecoded(t, out);
    SpacedIsWords(text, 0);
    OrdinaryLive(t, out);
    hide HasMarker, AllOrdinary;
  }

  /** Blank text is refused, text with a word is not. */
  lemma {:induction false} BlankIsInvalid(t: Tok, text: Bytes, i: nat)
    requires i <= |text|
    ensures PreTok(t, text, i) == [] <==> Blank(text[i..])
    decreases |text| - i
  {
    hide StrToToken, CharId, CharLen, MarkedChar, Utf8Len;
    if i < |text| {
      assert text[i..] == [text[i]] + text[i + 1..];
      BlankIsInvalid(t, text, i + 1);
      assert text[i] in text[i..];
    }
  }

  /** A text of one character: its token with the marker if there is one, else the marker and the
      character's token, else, for a single byte, the marker and the byte's fallback. */
  lemma OneCharacter(t: Tok, c: Bytes)
    requires IsChar(c) && !IsSpace(c[0])
    ensures Found(t, MARKER + c) ==> PreTok(t, c, 0) == [StrToToken(t, MARKER + c)]
    ensures !Found(t, MARKER + c) && Found(t, c) ==> PreTok(t, c, 0) == [StrToToken(t, MARKER), StrToToken(t, c)]
    ensures |c| == 1 && !Found(t, MARKER + c) && !Found(t, c) ==>
              PreTok(t, c, 0) == [StrToToken(t, MARKER), StrToToken(t, Fallback(c[0]))]
  {
    hide StrToToken, Utf8Len, Fallback, IsSpace;
    assert c[0..|c|] == c;
    NoTokens(t, c);
    if |c| == 1 { assert [c[0]] == c; }
  }

  // ----- Encoding, told from the rules alone -----

  /** The status and ids of tokenizer_encode for every text: the pre-tokens after rounds of merging until
      no rule is for any pair, between the begin and end tokens, if they fit. */
  ghost predicate EncodedAs(t: Tok, text: Bytes, maxIds: nat, status: Status, out: seq<nat>)
  {
    if text == [] then status == Ok && out == if t.cfg.addBos then [t.cfg.bos] else []
    else if |text| > 65536 then status == Overflow && out == []
    else if Blank(text) then status == Invalid && out == []
    else exists lists: seq<seq<nat>> ::
           && Rounds(t.rules, lists) && lists[0] == PreTok(t, text, 0) && NothingFits(t.rules, lists[|lists| - 1])
           && var all := (if t.cfg.addBos then [t.cfg.bos] else []) + Live(lists[|lists| - 1])
                         + (if t.cfg.addEos then [t.cfg.eos] else []);
              if |all| <= maxIds then status == Ok && out == all else status == Overflow && out == []
  }

  lemma RoundsStart(rules: seq<Rule>, lists: seq<seq<nat>>)
    requires Rounds(rules, lists)
    ensures lists != []
  {
  }

  lemma EncodeIs(t: Tok, text: Bytes, maxIds: nat)
    requires |t.rules| <= EMPTY
    ensures EncodedAs(t, text, maxIds, Encode(t, text, maxIds).0, Encode(t, text, maxIds).1)
  {
    hide PreTok, Live, MergeAll, NothingFits, Rounds, Blank;
    assert text[0..] == text;
    BlankIsInvalid(t, text, 0);
    var lists := MergeAllIsRounds(t.rules, PreTok(t, text, 0));
    RoundsStart(t.rules, lists);
  }

  // ----- Examples -----

  lemma FoundAt(vocab: seq<Bytes>, s: Bytes, i: nat)
    requires i < |vocab| && vocab[i] == s && forall j | 0 <= j < i :: vocab[j] != s
    ensures FindStr(vocab, s, 0) == i
  {
  }

  lemma NotFound(vocab: seq<Bytes>, s: Bytes)
    requires forall j | 0 <= j < |vocab| :: vocab[j] != s
    ensures FindStr(vocab, s, 0) == |vocab|
  {
  }

  /** The lookups the examples make. */
  lemma ByteLookups()
    ensures var t := ByteTok();
            && StrToToken(t, [0x61]) == 260 && StrToToken(t, [0x62]) == 261 && StrToToken(t, MARKER) == 3
            && StrToToken(t, MARKER + [0x61]) == t.cfg.unk
  {
    hide FindStr, HexDigit;
    var v := ByteVocab();
    FoundAt(v, [0x61], 260);
    FoundAt(v, [0x62], 261);
    FoundAt(v, MARKER, 3);
    var s := MARKER + [0x61];
    assert s[0] == 0xE2 && |s| == 4;
    forall j | 0 <= j < |v| ensures v[j] != s {}
    NotFound(v, s);
  }

  predicate Letters(text: Bytes) { text != [] && text[0] == 0x61 && forall c | c in text :: c == 0x61 || c == 0x62 }

  /** The pre-tokens of a text of "a" and "b" that begins with "a": the marker, then its letters. */
  function LetterTokens(text: Bytes, i: nat): seq<nat>
    requires i <= |text|
    decreases |text| - i
  {
    if i == |text| then [] else [if text[i] == 0x61 then 260 else 261] + LetterTokens(text, i + 1)
  }

  lemma LetterHere(text: Bytes, i: nat)
    requires Letters(text) && i < |text|
    ensures !IsSpace(text[i]) && (WordStart(text, i) <==> i == 0)
    ensures CharLen(ByteTok(), text, i) == 1 && (i == 0 ==> !MarkedChar(ByteTok(), text, i))
    ensures CharId(ByteTok(), text, i) == if text[i] == 0x61 then 260 else 261
  {
    hide FindStr, StrToToken, ByteVocab, Utf8Len;
    ByteLookups();
    assert text[i] in text && (i > 0 ==> text[i - 1] in text);
    AsciiIsOne(text[i]);
    assert text[i..i + 1] == [text[i]];
  }

  lemma {:induction false} LettersPreTok(text: Bytes, i: nat)
    requires Letters(text) && i <= |text|
    ensures PreTok(ByteTok(), text, i) == (if i == 0 then [3] else []) + LetterTokens(text, i)
    decreases |text| - i
  {
    hide StrToToken, ByteTok, IsSpace, WordStart, CharLen, CharId, MarkedChar, Utf8Len;
    if i < |text| {
      LetterHere(text, i);
      ByteLookups();
      LettersPreTok(text, i + 1);
    }
  }

  lemma LiveAll(ids: seq<nat>)
    requires forall k | 0 <= k < |ids| :: ids[k] != NODE_NONE
    ensures Live(ids) == ids
  {
  }

  /** From the merged list to the result. */
  lemma EncodedLetters(text: Bytes, merged: seq<nat>)
    requires Letters(text) && |text| <= MAX_TEXT && MergeAll(ByteTok().rules, [3] + LetterTokens(text, 0)) == merged
    requires forall k | 0 <= k < |merged| :: merged[k] != NODE_NONE
    ensures Encode(ByteTok(), text, |merged| + 1) == (Ok, [1] + merged)
  {
    hide ByteVocab, MergeAll, PreTok, LetterTokens, Live;
    LettersPreTok(text, 0);
    LiveAll(merged);
    assert Wrap(ByteTok(), merged) == [1] + merged + [] == [1] + merged;
  }

  /** The rank of a pair under the two rules. */
  function RankOf(l: nat, r: nat): nat
  {
    if l == 260 && r == 261 then 0 else if l == 260 && r == 260 then 1 else EMPTY
  }

  lemma RankIs(l: nat, r: nat)
    ensures Rank(ByteTok().rules, l, r, 0) == RankOf(l, r)
  {
    hide ByteVocab;
    var rules := ByteTok().rules;
    assert Rank(rules, l, r, 2) == EMPTY;
    assert Rank(rules, l, r, 1) == if l == 260 && r == 260 then 1 else EMPTY;
  }

  lemma RankSmall(l: nat, r: nat)
    ensures RankOf(l, r) in {0, 1, EMPTY}
  {
  }

  lemma Applies(ids: seq<nat>, i: nat, result: nat)
    requires i + 1 < |ids| && RankOf(ids[i], ids[i + 1]) != EMPTY
    requires result == if RankOf(ids[i], ids[i + 1]) == 0 then 262 else 263
    requires forall m: nat | m + 1 < |ids| ::
               && RankOf(ids[m], ids[m + 1]) >= RankOf(ids[i], ids[i + 1])
               && (m < i ==> RankOf(ids[m], ids[m + 1]) > RankOf(ids[i], ids[i + 1]))
    ensures MergeAll(ByteTok().rules, ids) == MergeAll(ByteTok().rules, ids[..i] + [result] + ids[i + 2..])
  {
    hide Rank, MergeAll, ByteVocab, RankOf;
    var rules := ByteTok().rules;
    forall m: nat | m + 1 < |ids| ensures PairRank(rules, ids, m) == RankOf(ids[m], ids[m + 1]) {
      RankIs(ids[m], ids[m + 1]);
    }
    forall m: nat | m + 1 < |ids| ensures Beats(rules, ids, i, m) {}
    assert IsBest(rules, ids, i);
    MergeAllStep(rules, ids, i);
    RankSmall(ids[i], ids[i + 1]);
  }

  lemma Finished(ids: seq<nat>)
    requires forall m: nat | m + 1 < |ids| :: RankOf(ids[m], ids[m + 1]) == EMPTY
    ensures MergeAll(ByteTok().rules, ids) == ids
  {
    hide Rank, ByteVocab, RankOf;
    var rules := ByteTok().rules;
    forall m: nat | m + 1 < |ids| ensures PairRank(rules, ids, m) == EMPTY { RankIs(ids[m], ids[m + 1]); }
    SomePairHasBest(rules, ids);
  }

  /** "ab": the rule for "a" and "b" applies. */
  lemma EncodesAb()
    ensures Encode(ByteTok(), [0x61, 0x62], 3) == (Ok, [1, 3, 262])
  {
    hide ByteTok, MergeAll, Encode;
    var text: Bytes := [0x61, 0x62];
    assert LetterTokens(text, 2) == [];
    assert LetterTokens(text, 1) == [261];
    assert [3] + LetterTokens(text, 0) == [3, 260, 261];
    var ids := [3, 260, 261];
    Applies(ids, 1, 262);
    assert ids[..1] + [262] + ids[3..] == [3, 262];
    Finished([3, 262]);
    EncodedLetters(text, [3, 262]);
    assert [1] + [3, 262] == [1, 3, 262];
  }

  /** "aab": the rule that comes first in the list goes before the leftmost place. */
  lemma EncodesAab()
    ensures Encode(ByteTok(), [0x61, 0x61, 0x62], 4) == (Ok, [1, 3, 260, 262])
  {
    hide ByteTok, MergeAll, Encode;
    var text: Bytes := [0x61, 0x61, 0x62];
    assert LetterTokens(text, 3) == [];
    assert LetterTokens(text, 2) == [261];
    assert LetterTokens(text, 1) == [260, 261];
    assert [3] + LetterTokens(text, 0) == [3, 260, 260, 261];
    var ids := [3, 260, 260, 261];
    Applies(ids, 2, 262);
    assert ids[..2] + [262] + ids[4..] == [3, 260, 262];
    Finished([3, 260, 262]);
    EncodedLetters(text, [3, 260, 262]);
    assert [1] + [3, 260, 262] == [1, 3, 260, 262];
  }

  /** "aaa": of two places for one rule the left one is taken. */
  lemma EncodesAaa()
    ensures Encode(ByteTok(), [0x61, 0x61, 0x61], 4) == (Ok, [1, 3, 263, 260])
  {
    hide ByteTok, MergeAll, Encode;
    var text: Bytes := [0x61, 0x61, 0x61];
    assert LetterTokens(text, 3) == [];
    assert LetterTokens(text, 2) == [260];
    assert LetterTokens(text, 1) == [260, 260];
    assert [3] + LetterTokens(text, 0) == [3, 260, 260, 260];
    var ids := [3, 260, 260, 260];
    Applies(ids, 1, 263);
    assert ids[..1] + [263] + ids[3..] == [3, 263, 260];
    Finished([3, 263, 260]);
    EncodedLetters(text, [3, 263, 260]);
    assert [1] + [3, 263, 260] == [1, 3, 263, 260];
  }
}
