/**
 * Byte patterns with wildcards: their text, their wire form, and the scans that skip ahead to an anchor byte.
 */
module Pattern {
  import opened Memory

  datatype PatternError =
    | BadToken(token: string)
    | EmptyPattern
    | LengthMismatch(bytes: nat, masks: nat)
    | BadMask(mask: byte)

  /** `None` is a wildcard; `anchor` is the position of the first literal. */
  datatype Pattern = Pattern(bytes: seq<Option<byte>>, anchor: nat)

  predicate Valid(p: Pattern) {
    p.anchor < |p.bytes| && p.bytes[p.anchor].Some? && forall i :: 0 <= i < p.anchor ==> p.bytes[i] == None
  }

  predicate HasLiteral(bytes: seq<Option<byte>>) { exists i :: 0 <= i < |bytes| && bytes[i].Some? }

  /** The pattern with these bytes, if they have a literal to anchor it. */
  method Anchored(bytes: seq<Option<byte>>) returns (r: Result<Pattern, PatternError>)
    ensures r.Ok? <==> HasLiteral(bytes)
    ensures r.Ok? ==> r.value.bytes == bytes && Valid(r.value)
    ensures r.Err? ==> r.error == EmptyPattern
  {
    var anchor := 0;
    while anchor < |bytes| && bytes[anchor] == None
      invariant 0 <= anchor <= |bytes|
      invariant forall i :: 0 <= i < anchor ==> bytes[i] == None
    {
      anchor := anchor + 1;
    }
    return if anchor < |bytes| then Ok(Pattern(bytes, anchor)) else Err(EmptyPattern);
  }

  /** Bytes determine the pattern: there is one first literal. */
  lemma AnchorUnique(p: Pattern, q: Pattern)
    requires Valid(p) && Valid(q) && p.bytes == q.bytes
    ensures p == q
  {
  }

  // ---------- text ----------

  /** The characters with Unicode's White_Space property. */
  predicate IsWhitespace(c: char) {
    var n := c as int;
    || 0x09 <= n <= 0x0D
    || n == 0x20 || n == 0x85 || n == 0xA0 || n == 0x1680
    || 0x2000 <= n <= 0x200A
    || n == 0x2028 || n == 0x2029 || n == 0x202F || n == 0x205F || n == 0x3000
  }

  function HexValue(c: char): Option<int> {
    if '0' <= c <= '9' then Some(c as int - '0' as int)
    else if 'a' <= c <= 'f' then Some(c as int - 'a' as int + 10)
    else if 'A' <= c <= 'F' then Some(c as int - 'A' as int + 10)
    else None
  }

  lemma HexBounds(c: char)
    ensures HexValue(c).Some? ==> 0 <= HexValue(c).value < 16
  {
  }

  /** The length of the token that `s` begins with. */
  function TokenLength(s: string): (n: nat)
    ensures n <= |s|
    ensures forall i :: 0 <= i < n ==> !IsWhitespace(s[i])
    ensures n < |s| ==> IsWhitespace(s[n])
  {
    if s == [] || IsWhitespace(s[0]) then 0 else 1 + TokenLength(s[1..])
  }

  /** `split_whitespace`. */
  function Tokens(s: string): seq<string> {
    if s == [] then []
    else if IsWhitespace(s[0]) then Tokens(s[1..])
    else
      var n := TokenLength(s);
      [s[..n]] + Tokens(s[n..])
  }

  /** One token: `?` and `??` are wildcards, two hex digits a literal, anything else is an error. */
  function ParseToken(tok: string): Option<Option<byte>> {
    if tok == "??" || tok == "?" then Some(None)
    else if |tok| == 2 && HexValue(tok[0]).Some? && HexValue(tok[1]).Some?
    then
      HexBounds(tok[0]);
      HexBounds(tok[1]);
      Some(Some((16 * HexValue(tok[0]).value + HexValue(tok[1]).value) as byte))
    else None
  }

  function ParseTokens(toks: seq<string>): Result<seq<Option<byte>>, PatternError> {
    if toks == [] then Ok([])
    else
      match ParseTokens(toks[..|toks| - 1])
      case Err(e) => Err(e)
      case Ok(bytes) =>
        var tok := toks[|toks| - 1];
        (match ParseToken(tok)
         case None => Err(BadToken(tok))
         case Some(b) => Ok(bytes + [b]))
  }

  lemma {:induction false} FirstBadToken(toks: seq<string>, n: nat)
    requires n <= |toks| && ParseTokens(toks[..n]).Err?
    ensures ParseTokens(toks) == ParseTokens(toks[..n])
    decreases |toks|
  {
    if n < |toks| {
      assert toks[..|toks| - 1][..n] == toks[..n];
      FirstBadToken(toks[..|toks| - 1], n);
    } else {
      assert toks[..n] == toks;
    }
  }

  /** What parsing a text answers. */
  predicate ParsedAs(text: string, r: Result<Pattern, PatternError>) {
    match ParseTokens(Tokens(text))
    case Err(e) => r == Err(e)
    case Ok(bytes) =>
      if HasLiteral(bytes) then r.Ok? && r.value.bytes == bytes && Valid(r.value) else r == Err(EmptyPattern)
  }

  /** `Pattern::parse`: the first bad token is an error, and so is a pattern without a literal. */
  method Parse(s: string) returns (r: Result<Pattern, PatternError>)
    ensures ParsedAs(s, r)
  {
    var toks := Tokens(s);
    var bytes := [];
    for i := 0 to |toks|
      invariant ParseTokens(toks[..i]) == Ok(bytes)
    {
      assert toks[..i + 1][..i] == toks[..i];
      var b := ParseToken(toks[i]);
      if b == None {
        FirstBadToken(toks, i + 1);
        return Err(BadToken(toks[i]));
      }
      bytes := bytes + [b.value];
    }
    assert toks[..|toks|] == toks;
    r := Anchored(bytes);
  }

  // ---------- printing ----------

  function HexDigit(n: int): (c: char)
    requires 0 <= n < 16
    ensures HexValue(c) == Some(n) && !IsWhitespace(c)
  {
    if n < 10 then ('0' as int + n) as char else ('A' as int + n - 10) as char
  }

  /** Two upper-case hex digits, or `??`. */
  function PrintByte(b: Option<byte>): (s: string)
    ensures |s| == 2 && !IsWhitespace(s[0]) && !IsWhitespace(s[1])
    ensures ParseToken(s) == Some(b)
  {
    if b == None then "??"
    else
      var n := b.value as int;
      [HexDigit(n / 16), HexDigit(n % 16)]
  }

  /** The bytes separated by single spaces. */
  function Print(bytes: seq<Option<byte>>): string {
    if bytes == [] then []
    else if |bytes| == 1 then PrintByte(bytes[0])
    else PrintByte(bytes[0]) + " " + Print(bytes[1..])
  }

  lemma {:induction false} PrintAppend(bytes: seq<Option<byte>>, b: Option<byte>)
    requires bytes != []
    ensures Print(bytes + [b]) == Print(bytes) + " " + PrintByte(b)
  {
    assert (bytes + [b])[1..] == bytes[1..] + [b];
    if |bytes| > 1 {
      PrintAppend(bytes[1..], b);
      var head := PrintByte(bytes[0]) + " ";
      assert head + (Print(bytes[1..]) + " " + PrintByte(b)) == head + Print(bytes[1..]) + " " + PrintByte(b);
    }
  }

  function Printed(bytes: seq<Option<byte>>): (toks: seq<string>)
    ensures |toks| == |bytes| && forall i :: 0 <= i < |bytes| ==> toks[i] == PrintByte(bytes[i])
  {
    seq(|bytes|, i requires 0 <= i < |bytes| => PrintByte(bytes[i]))
  }

  lemma FirstToken(tok: string, rest: string)
    requires |tok| == 2 && !IsWhitespace(tok[0]) && !IsWhitespace(tok[1])
    requires rest == [] || IsWhitespace(rest[0])
    ensures Tokens(tok + rest) == [tok] + Tokens(rest)
  {
    var s := tok + rest;
    assert TokenLength(s) == 2;
    assert s[..2] == tok && s[2..] == rest;
  }

  lemma {:induction false} TokensOfPrint(bytes: seq<Option<byte>>)
    ensures Tokens(Print(bytes)) == Printed(bytes)
  {
    if |bytes| == 1 {
      FirstToken(PrintByte(bytes[0]), []);
      assert PrintByte(bytes[0]) + [] == PrintByte(bytes[0]);
    } else if |bytes| > 1 {
      var rest := " " + Print(bytes[1..]);
      FirstToken(PrintByte(bytes[0]), rest);
      assert Print(bytes) == PrintByte(bytes[0]) + rest;
      assert rest[1..] == Print(bytes[1..]);
      TokensOfPrint(bytes[1..]);
      assert [PrintByte(bytes[0])] + Printed(bytes[1..]) == Printed(bytes);
    }
  }

  lemma {:induction false} ParsePrinted(bytes: seq<Option<byte>>)
    ensures ParseTokens(Printed(bytes)) == Ok(bytes)
  {
    if bytes != [] {
      var n := |bytes| - 1;
      ParsePrinted(bytes[..n]);
      assert Printed(bytes)[..n] == Printed(bytes[..n]);
      assert bytes[..n] + [bytes[n]] == bytes;
    }
  }

  /** What is printed parses back to the same bytes. */
  lemma PrintRoundTrip(bytes: seq<Option<byte>>)
    ensures ParseTokens(Tokens(Print(bytes))) == Ok(bytes)
  {
    TokensOfPrint(bytes);
    ParsePrinted(bytes);
  }

  // ---------- wire form ----------

  function WireByte(b: Option<byte>): byte { if b == None then 0 else b.value }

  function WireMask(b: Option<byte>): byte { if b == None then 0x00 else 0xFF }

  /** The bytes and the mask spell the pattern. */
  predicate Wired(p: Pattern, bytes: seq<byte>, mask: seq<byte>) {
    && |bytes| == |mask| == |p.bytes|
    && forall i :: 0 <= i < |p.bytes| ==> bytes[i] == WireByte(p.bytes[i]) && mask[i] == WireMask(p.bytes[i])
  }

  /** `wire`: the bytes, with 0 for a wildcard, and the mask that tells which are literals. */
  method Wire(p: Pattern) returns (bytes: seq<byte>, mask: seq<byte>)
    ensures Wired(p, bytes, mask)
  {
    bytes, mask := [], [];
    for i := 0 to |p.bytes|
      invariant |bytes| == |mask| == i
      invariant forall k :: 0 <= k < i ==> bytes[k] == WireByte(p.bytes[k]) && mask[k] == WireMask(p.bytes[k])
    {
      match p.bytes[i]
      case Some(v) =>
        bytes, mask := bytes + [v], mask + [0xFF];
      case None =>
        bytes, mask := bytes + [0], mask + [0x00];
    }
  }

  /** The byte that a wire pair stands for. */
  function Unwire(b: byte, m: byte): Option<byte> { if m == 0xFF then Some(b) else None }

  predicate GoodMask(m: byte) { m == 0x00 || m == 0xFF }

  /**
   * What `from_wire` may answer: a pair is accepted exactly if the lengths agree, the mask is all 0x00 and 0xFF, and
   * some byte is a literal; the first mask byte that is neither is the error.
   */
  predicate Unwired(bytes: seq<byte>, mask: seq<byte>, r: Result<Pattern, PatternError>) {
    if |bytes| != |mask| then r == Err(LengthMismatch(|bytes|, |mask|))
    else
      match r
      case Ok(p) =>
        && Valid(p) && |p.bytes| == |bytes| && (forall i :: 0 <= i < |mask| ==> GoodMask(mask[i]))
        && forall i :: 0 <= i < |bytes| ==> p.bytes[i] == Unwire(bytes[i], mask[i])
      case Err(BadMask(m)) =>
        exists i :: 0 <= i < |mask| && m == mask[i] && !GoodMask(m) && forall k :: 0 <= k < i ==> GoodMask(mask[k])
      case Err(EmptyPattern) => forall i :: 0 <= i < |mask| ==> mask[i] == 0x00
      case Err(_) => false
  }

  method FromWire(bytes: seq<byte>, mask: seq<byte>) returns (r: Result<Pattern, PatternError>)
    ensures Unwired(bytes, mask, r)
  {
    if |bytes| != |mask| {
      return Err(LengthMismatch(|bytes|, |mask|));
    }
    var out: seq<Option<byte>> := [];
    for i := 0 to |bytes|
      invariant |out| == i
      invariant forall k :: 0 <= k < i ==> GoodMask(mask[k]) && out[k] == Unwire(bytes[k], mask[k])
    {
      if mask[i] == 0xFF {
        out := out + [Some(bytes[i])];
      } else if mask[i] == 0x00 {
        out := out + [None];
      } else {
        return Err(BadMask(mask[i]));
      }
    }
    r := Anchored(out);
    if r.Err? {
      forall i | 0 <= i < |mask| ensures mask[i] == 0x00 {
        assert out[i] == None;
      }
    }
  }

  /** `from_wire` undoes `wire`, anchor included: the pattern is the only possible answer. */
  lemma WireRoundTrip(p: Pattern, bytes: seq<byte>, mask: seq<byte>, r: Result<Pattern, PatternError>)
    requires Valid(p) && Wired(p, bytes, mask) && Unwired(bytes, mask, r)
    ensures r == Ok(p)
  {
    assert mask[p.anchor] == 0xFF;
    assert forall i :: 0 <= i < |mask| ==> GoodMask(mask[i]);
    if r.Ok? {
      assert r.value.bytes == p.bytes;
      AnchorUnique(r.value, p);
    }
  }

  // ---------- scanning ----------

  /** The naive masked match: every literal is where it should be. */
  predicate MatchesAt(p: Pattern, hay: seq<byte>, at: nat) {
    && at + |p.bytes| <= |hay|
    && forall k :: 0 <= k < |p.bytes| && p.bytes[k].Some? ==> hay[at + k] == p.bytes[k].value
  }

  /** The naive matches below `n`, in ascending order. */
  function Matches(p: Pattern, hay: seq<byte>, n: nat): seq<nat> {
    if n == 0 then [] else Matches(p, hay, n - 1) + if MatchesAt(p, hay, n - 1) then [n - 1] else []
  }

  function AllMatches(p: Pattern, hay: seq<byte>): seq<nat> { Matches(p, hay, |hay| + 1) }

  lemma {:induction false} MatchesExact(p: Pattern, hay: seq<byte>, n: nat)
    ensures forall i: nat :: i in Matches(p, hay, n) <==> i < n && MatchesAt(p, hay, i)
    ensures forall i, j :: 0 <= i < j < |Matches(p, hay, n)| ==> Matches(p, hay, n)[i] < Matches(p, hay, n)[j]
  {
    if n > 0 {
      MatchesExact(p, hay, n - 1);
      var init := Matches(p, hay, n - 1);
      assert forall i :: 0 <= i < |init| ==> init[i] in init;
    }
  }

  /** Beyond the last position where the pattern fits there are no matches. */
  lemma {:induction false} NoMatchBeyond(p: Pattern, hay: seq<byte>, n: nat, m: nat)
    requires n <= m && forall i: nat :: n <= i < m ==> !MatchesAt(p, hay, i)
    ensures Matches(p, hay, m) == Matches(p, hay, n)
    decreases m
  {
    if n < m {
      NoMatchBeyond(p, hay, n, m - 1);
    }
  }

  method TestAt(p: Pattern, hay: seq<byte>, at: nat) returns (ok: bool)
    requires at + |p.bytes| <= |hay|
    ensures ok == MatchesAt(p, hay, at)
  {
    for i := 0 to |p.bytes|
      invariant forall k :: 0 <= k < i && p.bytes[k].Some? ==> hay[at + k] == p.bytes[k].value
    {
      if p.bytes[i].Some? && hay[at + i] != p.bytes[i].value {
        return false;
      }
    }
    return true;
  }

  /** `scan_all`: skipping every position whose anchor byte differs loses no match. */
  method ScanAll(p: Pattern, hay: seq<byte>) returns (out: seq<nat>)
    requires Valid(p)
    ensures out == AllMatches(p, hay)
  {
    var anchorByte := p.bytes[p.anchor].value;
    if |hay| < |p.bytes| {
      NoMatchBeyond(p, hay, 0, |hay| + 1);
      return [];
    }
    var end := |hay| - |p.bytes| + 1;
    out := [];
    for i := 0 to end
      invariant out == Matches(p, hay, i)
    {
      if hay[i + p.anchor] == anchorByte {
        var ok := TestAt(p, hay, i);
        if ok {
          out := out + [i];
        }
      }
    }
    NoMatchBeyond(p, hay, end, |hay| + 1);
  }

  lemma {:induction false} FirstMatch(p: Pattern, hay: seq<byte>, i: nat, n: nat)
    requires i < n && MatchesAt(p, hay, i) && Matches(p, hay, i) == []
    ensures Matches(p, hay, n) != [] && Matches(p, hay, n)[0] == i
    decreases n
  {
    if i < n - 1 {
      FirstMatch(p, hay, i, n - 1);
    }
  }

  /** `scan`: the head of the list that `scan_all` gives. */
  method Scan(p: Pattern, hay: seq<byte>) returns (r: Option<nat>)
    requires Valid(p)
    ensures r == if AllMatches(p, hay) == [] then None else Some(AllMatches(p, hay)[0])
  {
    var anchorByte := p.bytes[p.anchor].value;
    if |hay| < |p.bytes| {
      NoMatchBeyond(p, hay, 0, |hay| + 1);
      return None;
    }
    var end := |hay| - |p.bytes| + 1;
    for i := 0 to end
      invariant Matches(p, hay, i) == []
    {
      if hay[i + p.anchor] == anchorByte {
        var ok := TestAt(p, hay, i);
        if ok {
          FirstMatch(p, hay, i, |hay| + 1);
          return Some(i);
        }
      }
    }
    NoMatchBeyond(p, hay, end, |hay| + 1);
    return None;
  }
}
