/** The tokenizer of kernel/llm/tokenizer.c as it runs: vocabulary and merge table built once,
    static node buffers, and the encode and decode loops. */
module Tokenizer {
  import opened MergeTable
  import opened Bpe
  import opened TokenText

  const MAX_TOKEN_LEN: nat := 64

  /** A token string as stored: cut to 63 bytes. */
  function Stored(s: Bytes): (r: Bytes)
    ensures r <= s && |r| == if |s| < 63 then |s| else 63
  {
    if |s| >= MAX_TOKEN_LEN then s[..MAX_TOKEN_LEN - 1] else s
  }

  function StoredAll(vocab: seq<Bytes>): (r: seq<Bytes>)
    ensures |r| == |vocab| && forall i | 0 <= i < |r| :: r[i] == Stored(vocab[i])
  {
    seq(|vocab|, i requires 0 <= i < |vocab| => Stored(vocab[i]))
  }

  /** A merge pair with its result looked up in the vocabulary. */
  function MakeRule(vocab: seq<Bytes>, cfg: Config, pair: (nat, nat)): Rule
    requires pair.0 < |vocab| && pair.1 < |vocab|
  {
    Rule(pair.0, pair.1, StrToToken(Tok(vocab, [], cfg), vocab[pair.0] + vocab[pair.1]))
  }

  /** The merge pairs name vocabulary entries; tokenizer_build does not check it. */
  predicate PairsInside(n: nat, pairs: seq<(nat, nat)>)
  {
    forall k | 0 <= k < |pairs| :: pairs[k].0 < n && pairs[k].1 < n
  }

  /** What tokenizer_build stores. */
  function Built(vocab: seq<Bytes>, pairs: seq<(nat, nat)>, cfg: Config): Tok
    requires PairsInside(|vocab|, pairs)
  {
    Tok(StoredAll(vocab),
        seq(|pairs|, k requires 0 <= k < |pairs| => MakeRule(StoredAll(vocab), cfg, pairs[k])), cfg)
  }

  /** A merge concatenates exactly when the concatenation is in the vocabulary (or is the string
      of the unknown token, which stands for every missing one). */
  lemma BuiltConcatenates(vocab: seq<Bytes>, pairs: seq<(nat, nat)>, cfg: Config, k: nat)
    requires PairsInside(|vocab|, pairs)
    requires k < |pairs| && cfg.unk < |vocab|
    ensures var t := Built(vocab, pairs, cfg);
            var both := Stored(vocab[pairs[k].0]) + Stored(vocab[pairs[k].1]);
            t.vocab[t.rules[k].result] == both <==> both in t.vocab
  {
  }

  /** The widths the C types give: ids in 32 bits. */
  ghost predicate Words32(t: Tok)
  {
    && t.cfg.unk < ID_LIMIT && |t.vocab| <= MAX_VOCAB && |t.rules| <= EMPTY
    && forall k | 0 <= k < |t.rules| ::
         t.rules[k].left < |t.vocab| && t.rules[k].right < |t.vocab| && t.rules[k].result < ID_LIMIT
  }

  /** The hash table has no room for rules past its size. */
  function Kept(t: Tok): Tok
  {
    t.(rules := Capped(t.rules))
  }

  lemma BuiltIs(vocab: seq<Bytes>, pairs: seq<(nat, nat)>, cfg: Config, strings: seq<Bytes>, rules: seq<Rule>)
    requires PairsInside(|vocab|, pairs)
    requires strings == StoredAll(vocab) && |rules| == |pairs|
    requires forall k | 0 <= k < |pairs| :: rules[k] == MakeRule(strings, cfg, pairs[k])
    ensures Tok(strings, rules, cfg) == Built(vocab, pairs, cfg)
  {
    hide MakeRule, StoredAll;
    assert rules == Built(vocab, pairs, cfg).rules;
  }

  lemma BuiltWords(vocab: seq<Bytes>, pairs: seq<(nat, nat)>, cfg: Config)
    requires PairsInside(|vocab|, pairs)
    requires |vocab| <= MAX_VOCAB && |pairs| <= EMPTY && cfg.unk < ID_LIMIT
    ensures Words32(Built(vocab, pairs, cfg)) && Ids(Built(vocab, pairs, cfg).rules)
  {
    hide Stored, FindStr;
  }

  lemma KeptWords(t: Tok)
    requires Words32(t)
    ensures Words32(Kept(t)) && Kept(t).cfg == t.cfg && |Kept(t).rules| <= EMPTY && Ids(Kept(t).rules)
    ensures forall k | 0 <= k < |Kept(t).rules| :: Kept(t).rules[k].result < ID_LIMIT
  {
  }

  lemma SameLookup(t: Tok, s: Bytes)
    ensures StrToToken(Kept(t), s) == StrToToken(t, s)
  {
    hide FindStr;
  }

  lemma KeptConfig(t: Tok)
    ensures Kept(t).cfg == t.cfg && Kept(t).vocab == t.vocab
  {
  }

  lemma SameCharacter(t: Tok, text: Bytes, i: nat)
    requires i < |text|
    ensures MarkedChar(Kept(t), text, i) == MarkedChar(t, text, i)
    ensures CharLen(Kept(t), text, i) == CharLen(t, text, i) && CharId(Kept(t), text, i) == CharId(t, text, i)
  {
    hide StrToToken, Kept, Utf8Len, Fallback;
    forall s: Bytes ensures StrToToken(Kept(t), s) == StrToToken(t, s) { SameLookup(t, s); }
    assert Kept(t).cfg == t.cfg by { KeptConfig(t); }
  }

  /** The tokens that pre-tokenisation emits at i, and where it goes on. */
  function TokensAt(t: Tok, text: Bytes, i: nat): (r: (seq<nat>, nat))
    requires i < |text|
    ensures i < r.1 <= |text|
  {
    if IsSpace(text[i]) then ([], i + 1)
    else if WordStart(text, i) && MarkedChar(t, text, i) then
      ([StrToToken(t, MARKER + text[i..i + Utf8Len(text[i])])], i + Utf8Len(text[i]))
    else
      ((if WordStart(text, i) then [StrToToken(t, MARKER)] else []) + [CharId(t, text, i)], i + CharLen(t, text, i))
  }

  lemma PreTokStep(t: Tok, text: Bytes, i: nat)
    requires i < |text|
    ensures PreTok(t, text, i) == TokensAt(t, text, i).0 + PreTok(t, text, TokensAt(t, text, i).1)
  {
    hide StrToToken, CharLen, CharId, MarkedChar, WordStart, IsSpace, Utf8Len;
  }

  lemma SameTokens(t: Tok, text: Bytes, i: nat)
    requires i < |text|
    ensures TokensAt(Kept(t), text, i) == TokensAt(t, text, i)
  {
    hide StrToToken, Kept, Utf8Len, CharLen, CharId, MarkedChar, WordStart, IsSpace;
    SameCharacter(t, text, i);
    SameLookup(t, MARKER);
    if MarkedChar(t, text, i) { SameLookup(t, MARKER + text[i..i + Utf8Len(text[i])]); }
  }

  lemma {:induction false} PreTokKept(t: Tok, text: Bytes, i: nat)
    ensures PreTok(Kept(t), text, i) == PreTok(t, text, i)
    decreases |text| - i
  {
    hide TokensAt, Kept;
    if i < |text| {
      hide PreTok;
      SameTokens(t, text, i);
      PreTokStep(t, text, i);
      PreTokStep(Kept(t), text, i);
      PreTokKept(t, text, TokensAt(t, text, i).1);
    }
  }

  /** Where every rule past the table's capacity is covered, encoding is as with the whole list. */
  lemma EncodesWithAllRules(t: Tok, text: Bytes, maxIds: nat)
    requires |t.rules| <= EMPTY && forall k: nat | HASH_SIZE <= k < |t.rules| :: Covered(t.rules, k)
    ensures Encode(Kept(t), text, maxIds) == Encode(t, text, maxIds)
  {
    hide Covered, PreTok, MergeAll, Live;
    PreTokKept(t, text, 0);
    DropsNoMerge(t.rules, PreTok(t, text, 0));
  }

  lemma EmptyPreTok(t: Tok, text: Bytes, i: nat)
    requires i >= |text|
    ensures PreTok(t, text, i) == []
  {
  }

  lemma SmallToken(t: Tok, s: Bytes)
    requires t.cfg.unk < ID_LIMIT && |t.vocab| <= MAX_VOCAB
    ensures StrToToken(t, s) < ID_LIMIT
  {
  }

  lemma SmallChar(t: Tok, text: Bytes, i: nat)
    requires t.cfg.unk < ID_LIMIT && |t.vocab| <= MAX_VOCAB && i < |text|
    ensures CharId(t, text, i) < ID_LIMIT
  {
    hide StrToToken, Utf8Len;
    SmallToken(t, [text[i]]);
    SmallToken(t, Fallback(text[i]));
    if WholeChar(t, text, i) { SmallToken(t, text[i..i + Utf8Len(text[i])]); }
  }

  lemma {:induction false} PreTokSmall(t: Tok, text: Bytes, i: nat)
    requires t.cfg.unk < ID_LIMIT && |t.vocab| <= MAX_VOCAB
    ensures SmallIds(PreTok(t, text, i))
    decreases |text| - i
  {
    hide StrToToken, CharId, MarkedChar, CharLen, IsSpace, Utf8Len, PreTok, WordStart;
    if i >= |text| {
      EmptyPreTok(t, text, i);
    } else if IsSpace(text[i]) {
      SkipSpace(t, text, i);
      PreTokSmall(t, text, i + 1);
    } else if WordStart(text, i) && MarkedChar(t, text, i) {
      PreTokAtMarked(t, text, i);
      SmallToken(t, MARKER + text[i..i + Utf8Len(text[i])]);
      PreTokSmall(t, text, i + Utf8Len(text[i]));
    } else {
      PreTokAtPlain(t, text, i);
      SmallChar(t, text, i);
      SmallToken(t, MARKER);
      PreTokSmall(t, text, i + CharLen(t, text, i));
    }
  }

  /** tokenizer_str_to_token. */
  method FindToken(t: Tok, s: Bytes) returns (id: nat)
    ensures id == StrToToken(t, s)
  {
    var i := 0;
    while i < |t.vocab|
      invariant i <= |t.vocab| && FindStr(t.vocab, s, 0) >= i
    {
      if t.vocab[i] == s { return i; }
      i := i + 1;
    }
    return t.cfg.unk;
  }

  method FindByte(t: Tok, b: bv8) returns (id: nat)
    ensures id == ByteToken(t, b)
  {
    id := FindToken(t, [b]);
    if id != t.cfg.unk { return; }
    id := FindToken(t, Fallback(b));
  }

  /** The marker and the character at i as one token. */
  method MarkedToken(t: Tok, text: Bytes, i: nat) returns (hit: bool, id: nat)
    requires i < |text|
    ensures hit == MarkedChar(t, text, i) && (hit ==> id == StrToToken(t, MARKER + text[i..i + Utf8Len(text[i])]))
  {
    hide StrToToken, Utf8Len;
    var clen := Utf8Len(text[i]);
    if i + clen <= |text| {
      id := FindToken(t, MARKER + text[i..i + clen]);
      return id != t.cfg.unk, id;
    }
    return false, 0;
  }

  /** The character at i, or its first byte. */
  method CharToken(t: Tok, text: Bytes, i: nat) returns (id: nat, taken: nat)
    requires i < |text|
    ensures id == CharId(t, text, i) && taken == CharLen(t, text, i)
  {
    hide StrToToken, Utf8Len, ByteToken;
    var clen := Utf8Len(text[i]);
    if i + clen <= |text| {
      id := FindToken(t, text[i..i + clen]);
      if id != t.cfg.unk { return id, clen; }
    }
    id := FindByte(t, text[i]);
    return id, 1;
  }

  /** The tokens of the character at i, the marker before it included. */
  method NextTokens(t: Tok, text: Bytes, i: nat) returns (ids: seq<nat>, taken: nat)
    requires i < |text| && !IsSpace(text[i])
    ensures 1 <= taken && i + taken <= |text| && 1 <= |ids| <= 2
    ensures PreTok(t, text, i) == ids + PreTok(t, text, i + taken)
  {
    hide StrToToken, Utf8Len, IsSpace, PreTok, CharId, CharLen, MarkedChar;
    var wordStart := WordStart(text, i);
    if wordStart {
      var hit, marked := MarkedToken(t, text, i);
      if hit {
        PreTokAtMarked(t, text, i);
        return [marked], Utf8Len(text[i]);
      }
    }
    PreTokAtPlain(t, text, i);
    var id;
    id, taken := CharToken(t, text, i);
    if wordStart {
      var marker := FindToken(t, MARKER);
      return [marker, id], taken;
    }
    return [id], taken;
  }

  /** Store ids from position n on while there is room. */
  method StoreIds(node: array<nat>, n: nat, ids: seq<nat>) returns (ok: bool, end: nat)
    requires n <= node.Length
    modifies node
    ensures ok <==> n + |ids| <= node.Length
    ensures ok ==> end == n + |ids| && node[..end] == old(node[..n]) + ids
  {
    end := n;
    var k := 0;
    while k < |ids|
      invariant k <= |ids| && end == n + k <= node.Length && node[..end] == old(node[..n]) + ids[..k]
    {
      if end >= node.Length { return false, end; }
      node[end] := ids[k];
      end, k := end + 1, k + 1;
    }
    return true, end;
  }

  /** Up to position i the text's tokens are in the first n cells of the buffer. */
  ghost predicate Gathered(t: Tok, text: Bytes, i: nat, buf: seq<nat>, n: nat)
  {
    n <= |buf| && PreTok(t, text, 0) == buf[..n] + PreTok(t, text, i)
  }

  lemma GatheredMore(t: Tok, text: Bytes, i: nat, buf: seq<nat>, n: nat, ids: seq<nat>, j: nat)
    requires Gathered(t, text, i, buf, n) && PreTok(t, text, i) == ids + PreTok(t, text, j)
    ensures n + |ids| > |buf| ==> |PreTok(t, text, 0)| > |buf|
    ensures forall buf': seq<nat> | |buf'| == |buf| && n + |ids| <= |buf| && buf'[..n + |ids|] == buf[..n] + ids ::
              Gathered(t, text, j, buf', n + |ids|)
  {
    hide PreTok;
    assert buf[..n] + (ids + PreTok(t, text, j)) == (buf[..n] + ids) + PreTok(t, text, j);
  }

  lemma GatheredEnds(t: Tok, text: Bytes, buf: seq<nat>, n: nat)
    ensures Gathered(t, text, 0, buf, 0)
    ensures Gathered(t, text, |text|, buf, n) ==> n == |PreTok(t, text, 0)| <= |buf| && buf[..n] == PreTok(t, text, 0)
  {
    NoTokens(t, text);
    hide PreTok;
    assert buf[..0] + PreTok(t, text, 0) == PreTok(t, text, 0);
  }

  /** Store the tokens of the character at i. */
  method StoreNext(t: Tok, text: Bytes, i: nat, node: array<nat>, n: nat) returns (ok: bool, taken: nat, end: nat)
    requires i < |text| && !IsSpace(text[i]) && Gathered(t, text, i, node[..], n)
    modifies node
    ensures 1 <= taken && i + taken <= |text|
    ensures ok ==> Gathered(t, text, i + taken, node[..], end)
    ensures !ok ==> |PreTok(t, text, 0)| > node.Length
  {
    hide PreTok, IsSpace;
    var ids;
    ids, taken := NextTokens(t, text, i);
    GatheredMore(t, text, i, node[..], n, ids, i + taken);
    ok, end := StoreIds(node, n, ids);
    if ok { assert node[..][..end] == node[..end]; }
  }

  lemma GatheredSkip(t: Tok, text: Bytes, i: nat, buf: seq<nat>, n: nat)
    requires i < |text| && IsSpace(text[i]) && Gathered(t, text, i, buf, n)
    ensures Gathered(t, text, i + 1, buf, n)
  {
    SkipSpace(t, text, i);
  }

  /** pre_tokenize; 0 also when the buffer is too small. */
  method PreTokenize(t: Tok, text: Bytes, node: array<nat>) returns (n: nat)
    modifies node
    ensures n == if |PreTok(t, text, 0)| <= node.Length then |PreTok(t, text, 0)| else 0
    ensures n <= node.Length && (n > 0 ==> node[..n] == PreTok(t, text, 0))
  {
    hide PreTok, IsSpace, Gathered;
    n := 0;
    var i := 0;
    GatheredEnds(t, text, node[..], n);
    while i < |text|
      invariant i <= |text| && Gathered(t, text, i, node[..], n)
    {
      if IsSpace(text[i]) {
        GatheredSkip(t, text, i, node[..], n);
        i := i + 1;
      } else {
        var ok, taken, end := StoreNext(t, text, i, node, n);
        if !ok { return 0; }
        i, n := i + taken, end;
      }
    }
    GatheredEnds(t, text, node[..], n);
    assert node[..][..n] == node[..n];
  }

  // ----- Collecting the ids that are left -----

  lemma {:induction false} LiveGrows(ids: seq<nat>, k: nat)
    requires k <= |ids|
    ensures |Live(ids[..k])| <= |Live(ids)|
    decreases |ids|
  {
    if k < |ids| {
      assert ids[..|ids| - 1][..k] == ids[..k];
      LiveGrows(ids[..|ids| - 1], k);
    } else {
      assert ids[..k] == ids;
    }
  }

  lemma LiveNext(ids: seq<nat>, k: nat)
    requires k < |ids|
    ensures Live(ids[..k + 1]) == Live(ids[..k]) + if ids[k] == NODE_NONE then [] else [ids[k]]
  {
    assert ids[..k + 1][..k] == ids[..k];
  }

  lemma LiveNone(ids: seq<nat>)
    ensures Live(ids[..0]) == []
  {
  }

  lemma AlongAt(id: seq<nat>, q: seq<nat>, k: nat)
    requires k < |q| && forall k | 0 <= k < |q| :: q[k] < |id|
    ensures Along(id, q)[k] == id[q[k]]
  {
  }

  /** Walk the node list and append the ids. */
  method Collect(nodes: NodeList, start: seq<nat>, maxIds: nat) returns (ok: bool, out: seq<nat>)
    requires nodes.Valid() && |start| <= maxIds
    ensures ok <==> |start| + |Live(nodes.Ids())| <= maxIds
    ensures ok ==> out == start + Live(nodes.Ids())
  {
    hide Linked, Live, Along;
    ghost var k, ids := 0, nodes.Ids();
    LiveNone(ids);
    ok, out := true, start;
    var i := 0;
    while i != NODE_NONE
      invariant k <= |nodes.q| && i == (if k < |nodes.q| then nodes.q[k] else NODE_NONE)
      invariant out == start + Live(ids[..k]) && |out| <= maxIds
      decreases |nodes.q| - k
    {
      LinkHere(nodes.next[..], nodes.prev[..], nodes.q, k);
      LiveNext(ids, k);
      LiveGrows(ids, k + 1);
      AlongAt(nodes.id[..], nodes.q, k);
      if nodes.id[i] != NODE_NONE {
        if |out| >= maxIds { return false, out; }
        out := out + [nodes.id[i]];
      }
      i := nodes.next[i];
      k := k + 1;
    }
    assert ids[..k] == ids;
  }

  // ----- Decoding -----

  /** A write position: in front of the buffer's end, or the start of an empty buffer. */
  predicate Inside(pos: nat, size: nat) { pos < size || pos == size == 0 }

  /** n more bytes and a closing NUL fit; nothing always does. */
  predicate Room(pos: nat, n: nat, size: nat) { n == 0 || pos + n < size }

  /** buf_append: copies unless the closing NUL would not fit. */
  method Append(buf: array<bv8>, pos: nat, src: Bytes) returns (ok: bool, end: nat)
    requires Inside(pos, buf.Length)
    modifies buf
    ensures ok <==> pos + |src| < buf.Length
    ensures ok ==> end == pos + |src| && buf[..end] == old(buf[..pos]) + src
    ensures !ok ==> end == pos && buf[..] == old(buf[..])
  {
    if pos + |src| >= buf.Length { return false, pos; }
    var i := 0;
    while i < |src|
      invariant i <= |src| && buf[..pos + i] == old(buf[..pos]) + src[..i]
    {
      buf[pos + i] := src[i];
      i := i + 1;
    }
    return true, pos + |src|;
  }

  /** A marked token: its space, unless it is the first of all, then the rest of the token. */
  method EmitMarked(first: bool, rest: Bytes, buf: array<bv8>, pos: nat) returns (ok: bool, end: nat)
    requires Inside(pos, buf.Length)
    modifies buf
    ensures var piece := (if first then [] else [SPACE]) + rest;
            && (ok <==> Room(pos, |piece|, buf.Length))
            && (ok ==> end == pos + |piece| && buf[..end] == old(buf[..pos]) + piece)
  {
    ok, end := true, pos;
    if !first {
      ok, end := Append(buf, pos, [SPACE]);
      if !ok { return; }
    }
    if |rest| > 0 {
      ok, end := Append(buf, end, rest);
    }
  }

  lemma MarkerLong(s: Bytes)
    requires HasMarkerPrefix(s)
    ensures |s| >= 3
  {
  }

  /** One round of the decode loop. */
  method EmitToken(t: Tok, id: nat, first: bool, buf: array<bv8>, pos: nat) returns (ok: bool, end: nat)
    requires Inside(pos, buf.Length)
    modifies buf
    ensures ok <==> Room(pos, |Piece(t, id, first)|, buf.Length)
    ensures ok ==> end == pos + |Piece(t, id, first)| && buf[..end] == old(buf[..pos]) + Piece(t, id, first)
  {
    hide HexByte, IsHex, HasMarkerPrefix;
    if id == t.cfg.bos || id == t.cfg.eos || id >= |t.vocab| { return true, pos; }
    var s := t.vocab[id];
    if IsHex(s) {
      ok, end := Append(buf, pos, [HexByte(s)]);
    } else if HasMarkerPrefix(s) {
      MarkerLong(s);
      ok, end := EmitMarked(first, s[3..], buf, pos);
    } else if |s| > 0 {
      ok, end := Append(buf, pos, s);
    } else {
      return true, pos;
    }
  }

  /** tokenizer_decode.  `over` reports that the closing NUL went past the buffer; the model leaves that
      store out. */
  method Decode(t: Tok, ids: seq<nat>, buf: array<bv8>) returns (status: Status, len: nat, over: bool)
    modifies buf
    ensures over == (buf.Length == 0 && Decoded(t, ids, 0) == [])
    ensures status == if over || |Decoded(t, ids, 0)| < buf.Length then Ok else Overflow
    ensures status == Ok ==> len == |Decoded(t, ids, 0)| <= buf.Length && buf[..len] == Decoded(t, ids, 0)
    ensures status == Ok && !over ==> len < buf.Length && buf[len] == 0
    ensures status == Overflow ==> len == 0
  {
    hide Piece;
    var pos: nat, k: nat := 0, 0;
    while k < |ids|
      invariant k <= |ids| && Inside(pos, buf.Length) && buf[..pos] + Decoded(t, ids, k) == Decoded(t, ids, 0)
    {
      ghost var done, rest := buf[..pos], Decoded(t, ids, k + 1);
      assert done + (Piece(t, ids[k], k == 0) + rest) == Decoded(t, ids, 0);
      var ok, end := EmitToken(t, ids[k], k == 0, buf, pos);
      if !ok { return Overflow, 0, false; }
      pos, k := end, k + 1;
    }
    assert buf[..pos] == Decoded(t, ids, 0);
    if pos >= buf.Length { return Ok, pos, true; }
    buf[pos] := 0;
    return Ok, pos, false;
  }

  // ----- The tokenizer object -----

  class Tokenizer {
    var t: Tok
    var table: Table?
    /** The static buffers. */
    const nodes: NodeList
    const initIds: array<nat>

    ghost predicate Buffers()
      reads this
    {
      && initIds != nodes.id && initIds != nodes.next && initIds != nodes.prev && initIds.Length == MAX_NODES
      && nodes.id != nodes.next && nodes.id != nodes.prev && nodes.next != nodes.prev
      && nodes.id.Length == nodes.next.Length == nodes.prev.Length == MAX_NODES
    }

    /** A successfully built tokenizer. */
    ghost predicate Valid()
      reads this, if table == null then {} else {table.slots}
    {
      && Buffers() && Words32(t) && table != null && Holds(table.slots[..], Kept(t).rules)
      && table.slots as object !in {initIds, nodes.id, nodes.next, nodes.prev}
    }

    constructor ()
      ensures Buffers() && table == null
    {
      t, table := Tok([], [], Config(0, 0, 0, 0, false, false)), null;
      nodes := new NodeList();
      initIds := new nat[MAX_NODES](_ => 0);
    }

    /** The merge results are looked up once the vocabulary is filled. */
    static method BuildRules(vocab: seq<Bytes>, pairs: seq<(nat, nat)>, cfg: Config)
      returns (rules: seq<Rule>, over: bool)
      ensures over == !PairsInside(|vocab|, pairs)
      ensures !over ==>
                |rules| == |pairs| && forall k | 0 <= k < |pairs| :: rules[k] == MakeRule(vocab, cfg, pairs[k])
    {
      rules, over := [], false;
      var i := 0;
      while i < |pairs|
        invariant i == |rules| <= |pairs| && PairsInside(|vocab|, pairs[..i])
        invariant forall k | 0 <= k < i :: pairs[..i][k] == pairs[k] && rules[k] == MakeRule(vocab, cfg, pairs[k])
      {
        if pairs[i].0 >= |vocab| || pairs[i].1 >= |vocab| { return rules, true; }
        var result := FindToken(Tok(vocab, [], cfg), vocab[pairs[i].0] + vocab[pairs[i].1]);
        rules := rules + [Rule(pairs[i].0, pairs[i].1, result)];
        i := i + 1;
      }
    }

    /** tokenizer_build, when every allocation succeeds.  `over` reports that a merge pair makes it read past
        the vocabulary; the model stops in front of that read. */
    method Build(vocab: seq<Bytes>, pairs: seq<(nat, nat)>, cfg: Config) returns (status: Status, over: bool)
      requires Buffers() && |pairs| <= EMPTY && cfg.unk < ID_LIMIT
      modifies this
      ensures over == (0 < |vocab| <= 32000 && !PairsInside(|vocab|, pairs))
      ensures status == if 0 < |vocab| <= 32000 && !over then Ok else Invalid
      ensures status == Ok ==> Valid() && t == Built(vocab, pairs, cfg)
      ensures status == Invalid ==> table == null && t.vocab == []
    {
      hide Built, Words32;
      hide Holds, StrToToken, Stored;
      t, table := Tok([], [], Config(0, 0, 0, 0, false, false)), null;
      if |vocab| == 0 || |vocab| > MAX_VOCAB { return Invalid, false; }
      var strings: seq<Bytes> := [];
      var i := 0;
      while i < |vocab|
        invariant i <= |vocab| && strings == StoredAll(vocab)[..i]
      {
        strings := strings + [Stored(vocab[i])];
        i := i + 1;
      }
      var rules;
      rules, over := BuildRules(strings, pairs, cfg);
      if over { return Invalid, true; }
      t := Tok(strings, rules, cfg);
      BuiltIs(vocab, pairs, cfg, strings, rules);
      BuiltWords(vocab, pairs, cfg);
      table := new Table(rules);
      return Ok, false;
    }

    /** Collect the ids between the optional begin and end tokens. */
    method Finish(kept: Tok, maxIds: nat) returns (status: Status, out: seq<nat>)
      requires nodes.Valid()
      ensures var all := Wrap(kept, Live(nodes.Ids()));
              (status, out) == if |all| > maxIds then (Overflow, []) else (Ok, all)
    {
      hide Live;
      out := [];
      if kept.cfg.addBos {
        if |out| >= maxIds { return Overflow, []; }
        out := out + [kept.cfg.bos];
      }
      ghost var start := out;
      var ok;
      ok, out := Collect(nodes, out, maxIds);
      if !ok { return Overflow, []; }
      if kept.cfg.addEos {
        if |out| >= maxIds { return Overflow, []; }
        out := out + [kept.cfg.eos];
      }
      assert out == Wrap(kept, Live(nodes.Ids()));
      return Ok, out;
    }

    /** The stages of tokenizer_encode. */
    method EncodeStages(text: Bytes, maxIds: nat) returns (status: Status, out: seq<nat>)
      requires Valid()
      modifies initIds, nodes, nodes.id, nodes.next, nodes.prev
      ensures Valid() && (status, out) == Encode(Kept(t), text, maxIds)
    {
      out := [];
      if |text| == 0 {
        return Ok, if t.cfg.addBos then [t.cfg.bos] else [];
      }
      if |text| > MAX_TEXT { return Overflow, []; }
      var kept := Kept(t);
      KeptWords(t);
      var n := PreTokenize(kept, text, initIds);
      PreTokFits(kept, text, 0);
      PreTokSmall(kept, text, 0);
      hide PreTok, Words32, Kept, Holds;
      if n == 0 { return Invalid, []; }
      nodes.Fill(initIds[..n]);
      var merges := nodes.MergeLoop(table, kept.rules, n);
      status, out := Finish(kept, maxIds);
    }

    /** tokenizer_encode into a buffer of maxIds ids. */
    method EncodeText(text: Bytes, maxIds: nat) returns (status: Status, out: seq<nat>)
      requires Valid()
      modifies initIds, nodes, nodes.id, nodes.next, nodes.prev
      ensures Valid() && (status, out) == Encode(Kept(t), text, maxIds)
      ensures EncodedAs(Kept(t), text, maxIds, status, out)
    {
      hide Encode, EncodedAs, Holds;
      KeptWords(t);
      EncodeIs(Kept(t), text, maxIds);
      status, out := EncodeStages(text, maxIds);
    }
  }
}
