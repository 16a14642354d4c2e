/** The deterministic CBOR subset of sections 3 and 4.2.1 of RFC 8949 that the encodings use: a flat stream of
    heads, each unsigned integer in its shortest form.  The reader takes a head of any width. */
module Cbor {
  import opened Basics

  datatype Error = LimitExceeded | InvalidFormat | Malformed

  datatype Token = UInt(n: nat) | ByteString(bytes: Bytes) | ArrayOf(count: nat) | MapOf(count: nat) | Bool(value: bool)

  // ----- big-endian integers

  function Pow256(width: nat): (p: nat)
    ensures p > 0
  {
    if width == 0 then 1 else 256 * Pow256(width - 1)
  }

  function BigEndian(n: nat, width: nat): (bytes: Bytes)
    ensures |bytes| == width
  {
    if width == 0 then [] else BigEndian(n / 256, width - 1) + [n % 256]
  }

  function FromBigEndian(bytes: Bytes): nat {
    if bytes == [] then 0 else 256 * FromBigEndian(bytes[..|bytes| - 1]) + bytes[|bytes| - 1]
  }

  lemma {:induction false} BigEndianReads(n: nat, width: nat)
    requires n < Pow256(width)
    ensures FromBigEndian(BigEndian(n, width)) == n
  {
    if width > 0 {
      BigEndianReads(n / 256, width - 1);
      assert BigEndian(n, width)[..width - 1] == BigEndian(n / 256, width - 1);
    }
  }

  lemma {:induction false} BigEndianWrites(bytes: Bytes)
    ensures FromBigEndian(bytes) < Pow256(|bytes|)
    ensures BigEndian(FromBigEndian(bytes), |bytes|) == bytes
  {
    if bytes != [] {
      var init, last := bytes[..|bytes| - 1], bytes[|bytes| - 1];
      BigEndianWrites(init);
      var n := FromBigEndian(bytes);
      assert n == 256 * FromBigEndian(init) + last;
      assert n / 256 == FromBigEndian(init) && n % 256 == last;
      assert bytes == init + [last];
    }
  }

  lemma Widths()
    ensures Pow256(1) == 0x100 && Pow256(2) == 0x1_0000 && Pow256(4) == 0x1_0000_0000
    ensures Pow256(8) == U64_MAX + 1
  {}

  // ----- heads

  /** How many bytes follow the first one. */
  function ArgumentWidth(n: nat): nat {
    if n < 24 then 0 else if n < 0x100 then 1 else if n < 0x1_0000 then 2 else if n < 0x1_0000_0000 then 4 else 8
  }

  function WidthCode(width: nat): nat {
    match width case 1 => 24 case 2 => 25 case 4 => 26 case _ => 27
  }

  function HeadBytes(major: nat, n: nat): (bytes: Bytes)
    requires major < 8
    ensures |bytes| == 1 + ArgumentWidth(n)
  {
    if n < 24 then [major * 32 + n] else [major * 32 + WidthCode(ArgumentWidth(n))] + BigEndian(n, ArgumentWidth(n))
  }

  datatype Head = Head(major: nat, n: nat, next: nat)

  /** A head of any width; indefinite lengths and reserved codes are refused. */
  function ParseHead(input: Bytes, pos: nat): (head: Option<Head>)
    requires pos <= |input|
    ensures head.Some? ==> pos < head.value.next <= |input| && head.value.major < 8
  {
    if pos == |input| then None
    else
      var major, code := input[pos] / 32, input[pos] % 32;
      if code < 24 then Some(Head(major, code, pos + 1))
      else if code > 27 then None
      else
        var width := match code case 24 => 1 case 25 => 2 case 26 => 4 case _ => 8;
        if pos + 1 + width > |input| then None
        else Some(Head(major, FromBigEndian(input[pos + 1..pos + 1 + width]), pos + 1 + width))
  }

  lemma FirstOfHead(major: nat, n: nat)
    requires major < 8 && n <= U64_MAX
    ensures HeadBytes(major, n)[0] / 32 == major
    ensures HeadBytes(major, n)[0] % 32 == if n < 24 then n else WidthCode(ArgumentWidth(n))
  {}

  lemma ArgumentFits(n: nat)
    requires 24 <= n <= U64_MAX
    ensures n < Pow256(ArgumentWidth(n))
  {
    Widths();
  }

  lemma Slices<T>(input: seq<T>, pos: nat, piece: seq<T>, rest: seq<T>)
    requires pos <= |input| && input[pos..] == piece + rest
    ensures pos + |piece| <= |input| && input[pos..pos + |piece|] == piece && input[pos + |piece|..] == rest
    ensures piece != [] ==> input[pos] == piece[0] && input[pos + 1..pos + |piece|] == piece[1..]
  {}

  lemma LongHeadReads(input: Bytes, pos: nat, major: nat, n: nat)
    requires pos < |input| && major < 8 && 24 <= n <= U64_MAX && pos + 1 + ArgumentWidth(n) <= |input|
    requires input[pos] / 32 == major && input[pos] % 32 == WidthCode(ArgumentWidth(n))
    requires input[pos + 1..pos + 1 + ArgumentWidth(n)] == BigEndian(n, ArgumentWidth(n))
    ensures ParseHead(input, pos) == Some(Head(major, n, pos + 1 + ArgumentWidth(n)))
  {
    ArgumentFits(n);
    BigEndianReads(n, ArgumentWidth(n));
  }

  lemma HeadReads(input: Bytes, pos: nat, major: nat, n: nat, rest: Bytes)
    requires pos <= |input| && major < 8 && n <= U64_MAX
    requires input[pos..] == HeadBytes(major, n) + rest
    ensures ParseHead(input, pos) == Some(Head(major, n, pos + |HeadBytes(major, n)|))
    ensures input[pos + |HeadBytes(major, n)|..] == rest
  {
    var head := HeadBytes(major, n);
    Slices(input, pos, head, rest);
    FirstOfHead(major, n);
    if n >= 24 {
      assert head[1..] == BigEndian(n, ArgumentWidth(n));
      LongHeadReads(input, pos, major, n);
    }
  }

  /** The written head is the only shortest one that reads back as the same value. */
  lemma HeadIsShortest(input: Bytes, pos: nat, head: Head)
    requires pos <= |input| && ParseHead(input, pos) == Some(head)
    ensures |HeadBytes(head.major, head.n)| <= head.next - pos
    ensures |HeadBytes(head.major, head.n)| == head.next - pos ==>
              HeadBytes(head.major, head.n) == input[pos..head.next]
  {
    var major, code := input[pos] / 32, input[pos] % 32;
    if code < 24 {
      assert input[pos..head.next] == [input[pos]];
    } else {
      var argument := input[pos + 1..head.next];
      Widths();
      BigEndianWrites(argument);
      assert input[pos..head.next] == [input[pos]] + argument;
    }
  }

  // ----- heads byte by byte

  /** Network byte order: the most significant digit to base 256 comes first. */
  lemma {:induction false} BigEndianDigit(n: nat, width: nat, i: nat)
    requires i < width
    ensures BigEndian(n, width)[i] == n / Pow256(width - 1 - i) % 256
  {
    if i < width - 1 {
      BigEndianDigit(n / 256, width - 1, i);
      DivideTwice(n, Pow256(width - 2 - i));
    }
  }

  lemma DivideTwice(n: nat, d: nat)
    requires d > 0
    ensures n / 256 / d == n / (256 * d)
  {
    var q := n / 256 / d;
    assert n == 256 * (d * q + n / 256 % d) + n % 256;
    assert n == (256 * d) * q + (256 * (n / 256 % d) + n % 256);
    QuotientIs(n, 256 * d, q, 256 * (n / 256 % d) + n % 256);
  }

  lemma QuotientIs(n: nat, d: nat, q: nat, r: nat)
    requires d > 0 && n == d * q + r && r < d
    ensures n / d == q
  {
    var p := n / d;
    assert d * (p - q) == r - n % d;
    if p > q { AtLeastOnce(d, p - q); }
    if p < q { AtLeastOnce(d, q - p); }
  }

  lemma AtLeastOnce(d: nat, k: nat)
    requires k > 0
    ensures d * k >= d
  {
    assert d * k == d + d * (k - 1);
  }

  /** The head of section 3 of RFC 8949 in its shortest form: the major type in the first three bits, then the argument
      in those that follow, or in the 1, 2, 4 or 8 bytes after them, most significant byte first. */
  ghost function ShortestHead(major: nat, n: nat): Bytes
    requires major < 8 && n <= U64_MAX
  {
    if n < 24 then [32 * major + n]
    else if n < 0x100 then [32 * major + 24, n]
    else if n < 0x1_0000 then [32 * major + 25, n / 0x100, n % 0x100]
    else if n < 0x1_0000_0000 then
      [32 * major + 26, n / 0x100_0000, n / 0x1_0000 % 0x100, n / 0x100 % 0x100, n % 0x100]
    else
      [32 * major + 27, n / 0x100_0000_0000_0000, n / 0x1_0000_0000_0000 % 0x100, n / 0x100_0000_0000 % 0x100,
       n / 0x1_0000_0000 % 0x100, n / 0x100_0000 % 0x100, n / 0x1_0000 % 0x100, n / 0x100 % 0x100, n % 0x100]
  }

  lemma Powers()
    ensures Pow256(0) == 1 && Pow256(1) == 0x100 && Pow256(2) == 0x1_0000 && Pow256(3) == 0x100_0000
    ensures Pow256(4) == 0x1_0000_0000 && Pow256(5) == 0x100_0000_0000 && Pow256(6) == 0x1_0000_0000_0000
    ensures Pow256(7) == 0x100_0000_0000_0000
  {}

  lemma Digits(n: nat, width: nat)
    ensures forall i: nat :: i < width ==> BigEndian(n, width)[i] == n / Pow256(width - 1 - i) % 256
  {
    forall i: nat | i < width ensures BigEndian(n, width)[i] == n / Pow256(width - 1 - i) % 256 {
      BigEndianDigit(n, width, i);
    }
  }

  lemma TwoDigits(n: nat, bytes: Bytes)
    requires n < 0x1_0000 && |bytes| == 2 && forall i: nat :: i < 2 ==> bytes[i] == n / Pow256(1 - i) % 256
    ensures bytes == [n / 0x100, n % 0x100]
  {
    Powers();
  }

  lemma FourDigits(n: nat, bytes: Bytes)
    requires n < 0x1_0000_0000 && |bytes| == 4 && forall i: nat :: i < 4 ==> bytes[i] == n / Pow256(3 - i) % 256
    ensures bytes == [n / 0x100_0000, n / 0x1_0000 % 0x100, n / 0x100 % 0x100, n % 0x100]
  {
    Powers();
  }

  lemma EightDigits(n: nat, bytes: Bytes)
    requires n <= U64_MAX && |bytes| == 8 && forall i: nat :: i < 8 ==> bytes[i] == n / Pow256(7 - i) % 256
    ensures bytes ==
            [n / 0x100_0000_0000_0000, n / 0x1_0000_0000_0000 % 0x100, n / 0x100_0000_0000 % 0x100,
             n / 0x1_0000_0000 % 0x100, n / 0x100_0000 % 0x100, n / 0x1_0000 % 0x100, n / 0x100 % 0x100, n % 0x100]
  {
    Powers();
  }

  lemma OneByte(n: nat)
    requires n < 0x100
    ensures BigEndian(n, 1) == [n]
  {}

  lemma TwoBytes(n: nat)
    requires n < 0x1_0000
    ensures BigEndian(n, 2) == [n / 0x100, n % 0x100]
  {
    Digits(n, 2);
    TwoDigits(n, BigEndian(n, 2));
  }

  lemma FourBytes(n: nat)
    requires n < 0x1_0000_0000
    ensures BigEndian(n, 4) == [n / 0x100_0000, n / 0x1_0000 % 0x100, n / 0x100 % 0x100, n % 0x100]
  {
    Digits(n, 4);
    FourDigits(n, BigEndian(n, 4));
  }

  lemma EightBytes(n: nat)
    requires n <= U64_MAX
    ensures BigEndian(n, 8) ==
            [n / 0x100_0000_0000_0000, n / 0x1_0000_0000_0000 % 0x100, n / 0x100_0000_0000 % 0x100,
             n / 0x1_0000_0000 % 0x100, n / 0x100_0000 % 0x100, n / 0x1_0000 % 0x100, n / 0x100 % 0x100, n % 0x100]
  {
    Digits(n, 8);
    EightDigits(n, BigEndian(n, 8));
  }

  /** The written head is that of the standard. */
  lemma HeadIsStandard(major: nat, n: nat)
    requires major < 8 && n <= U64_MAX
    ensures HeadBytes(major, n) == ShortestHead(major, n)
  {
    if 24 <= n < 0x100 {
      OneByte(n);
    } else if 0x100 <= n < 0x1_0000 {
      TwoBytes(n);
    } else if 0x1_0000 <= n < 0x1_0000_0000 {
      FourBytes(n);
    } else if n >= 0x1_0000_0000 {
      EightBytes(n);
    }
  }

  // ----- tokens

  predicate Fits(t: Token) {
    match t
    case UInt(n) => n <= U64_MAX
    case ByteString(bytes) => |bytes| <= U64_MAX
    case ArrayOf(n) => n <= U64_MAX
    case MapOf(n) => n <= U64_MAX
    case Bool(_) => true
  }

  function TokenBytes(t: Token): (bytes: Bytes)
    ensures bytes != []
  {
    match t
    case UInt(n) => HeadBytes(0, n)
    case ByteString(bytes) => HeadBytes(2, |bytes|) + bytes
    case ArrayOf(n) => HeadBytes(4, n)
    case MapOf(n) => HeadBytes(5, n)
    case Bool(b) => if b then [0xf5] else [0xf4]
  }

  lemma Associative<T>(x: seq<T>, y: seq<T>, z: seq<T>)
    ensures x + (y + z) == x + y + z
  {}

  function Flatten<T>(pieces: seq<seq<T>>): seq<T> {
    if pieces == [] then [] else pieces[0] + Flatten(pieces[1..])
  }

  lemma {:induction false} FlattenConcat<T>(a: seq<seq<T>>, b: seq<seq<T>>)
    ensures Flatten(a + b) == Flatten(a) + Flatten(b)
  {
    if a == [] {
      assert a + b == b;
    } else {
      FlattenConcat(a[1..], b);
      assert (a + b)[0] == a[0] && (a + b)[1..] == a[1..] + b;
      Associative(a[0], Flatten(a[1..]), Flatten(b));
    }
  }

  function Pieces(tokens: seq<Token>): seq<Bytes> {
    seq(|tokens|, i requires 0 <= i < |tokens| => TokenBytes(tokens[i]))
  }

  function EncodeTokens(tokens: seq<Token>): Bytes {
    Flatten(Pieces(tokens))
  }

  lemma EncodeCons(tokens: seq<Token>)
    requires tokens != []
    ensures EncodeTokens(tokens) == TokenBytes(tokens[0]) + EncodeTokens(tokens[1..])
  {
    assert Pieces(tokens)[1..] == Pieces(tokens[1..]);
  }

  lemma PiecesConcat(a: seq<Token>, b: seq<Token>)
    ensures Pieces(a + b) == Pieces(a) + Pieces(b)
  {}

  lemma SevenPieces(a: Token, b: Token, c: Token, d: Token, e: Token, f: Token, g: Token)
    ensures Pieces([a, b, c, d, e, f, g]) ==
            [TokenBytes(a), TokenBytes(b), TokenBytes(c), TokenBytes(d), TokenBytes(e), TokenBytes(f), TokenBytes(g)]
  {}

  lemma ShortPiece(t: Token)
    ensures t.UInt? && t.n < 24 ==> TokenBytes(t) == [t.n]
    ensures t.ArrayOf? && t.count < 24 ==> TokenBytes(t) == [0x80 + t.count]
    ensures t.MapOf? && t.count < 24 ==> TokenBytes(t) == [0xa0 + t.count]
    ensures t.Bool? ==> TokenBytes(t) == if t.value then [0xf5] else [0xf4]
  {}

  lemma StringPiece(bytes: Bytes)
    requires |bytes| <= U64_MAX
    ensures TokenBytes(ByteString(bytes)) == ShortestHead(2, |bytes|) + bytes
    ensures |bytes| < 24 ==> TokenBytes(ByteString(bytes)) == [0x40 + |bytes|] + bytes
    ensures 24 <= |bytes| < 0x100 ==> TokenBytes(ByteString(bytes)) == [0x58, |bytes|] + bytes
  {
    HeadIsStandard(2, |bytes|);
  }

  predicate AllFit(tokens: seq<Token>) {
    forall t :: t in tokens ==> Fits(t)
  }

  lemma EncodeSnoc(tokens: seq<Token>, t: Token)
    ensures EncodeTokens(tokens + [t]) == EncodeTokens(tokens) + TokenBytes(t)
  {
    EncodeConcat(tokens, [t]);
    EncodeCons([t]);
    NothingAfter(TokenBytes(t));
  }

  lemma NothingAfter<T>(x: seq<T>)
    ensures x + [] == x
  {}

  lemma EncodeConcat(a: seq<Token>, b: seq<Token>)
    ensures EncodeTokens(a + b) == EncodeTokens(a) + EncodeTokens(b)
  {
    assert Pieces(a + b) == Pieces(a) + Pieces(b);
    FlattenConcat(Pieces(a), Pieces(b));
  }

  /** The token at a position, and the position after it. */
  function ParseToken(input: Bytes, pos: nat): (read: Option<(Token, nat)>)
    requires pos <= |input|
    ensures read.Some? ==> pos < read.value.1 <= |input|
  {
    if pos < |input| && (input[pos] == 0xf4 || input[pos] == 0xf5) then Some((Bool(input[pos] == 0xf5), pos + 1))
    else
      match ParseHead(input, pos)
      case None => None
      case Some(Head(major, n, next)) =>
        match major
        case 0 => Some((UInt(n), next))
        case 2 => if next + n > |input| then None else Some((ByteString(input[next..next + n]), next + n))
        case 4 => Some((ArrayOf(n), next))
        case 5 => Some((MapOf(n), next))
        case _ => None
  }

  lemma ByteStringReads(input: Bytes, pos: nat, bytes: Bytes, rest: Bytes)
    requires pos <= |input| && |bytes| <= U64_MAX && input[pos..] == HeadBytes(2, |bytes|) + bytes + rest
    ensures var end := pos + |HeadBytes(2, |bytes|)| + |bytes|;
            ParseToken(input, pos) == Some((ByteString(bytes), end)) && input[end..] == rest
  {
    var head := HeadBytes(2, |bytes|);
    Associative(head, bytes, rest);
    assert input[pos] == input[pos..][0];
    HeadReads(input, pos, 2, |bytes|, bytes + rest);
    var next := pos + |head|;
    Slices(input, next, bytes, rest);
  }

  lemma PlainReads(input: Bytes, pos: nat, major: nat, n: nat, rest: Bytes)
    requires pos <= |input| && n <= U64_MAX && major < 6 && input[pos..] == HeadBytes(major, n) + rest
    ensures pos < |input| && input[pos] < 0xf4
    ensures ParseHead(input, pos) == Some(Head(major, n, pos + |HeadBytes(major, n)|))
    ensures input[pos + |HeadBytes(major, n)|..] == rest
  {
    assert input[pos] == input[pos..][0];
    HeadReads(input, pos, major, n, rest);
  }

  /** The token a plain head stands for. */
  function PlainToken(major: nat, n: nat): Token {
    if major == 0 then UInt(n) else if major == 4 then ArrayOf(n) else MapOf(n)
  }

  lemma PlainTokenReads(input: Bytes, pos: nat, major: nat, n: nat, rest: Bytes)
    requires pos <= |input| && n <= U64_MAX && major in {0, 4, 5} && input[pos..] == HeadBytes(major, n) + rest
    ensures ParseToken(input, pos) == Some((PlainToken(major, n), pos + |HeadBytes(major, n)|))
    ensures input[pos + |HeadBytes(major, n)|..] == rest
  {
    PlainReads(input, pos, major, n, rest);
  }

  lemma BoolReads(input: Bytes, pos: nat, b: bool, rest: Bytes)
    requires pos <= |input| && input[pos..] == TokenBytes(Bool(b)) + rest
    ensures ParseToken(input, pos) == Some((Bool(b), pos + 1)) && input[pos + 1..] == rest
  {}

  lemma TokenReads(input: Bytes, pos: nat, t: Token, rest: Bytes)
    requires pos <= |input| && Fits(t) && input[pos..] == TokenBytes(t) + rest
    ensures ParseToken(input, pos) == Some((t, pos + |TokenBytes(t)|))
    ensures input[pos + |TokenBytes(t)|..] == rest
  {
    match t
    case ByteString(bytes) =>
      ByteStringReads(input, pos, bytes, rest);
      assert TokenBytes(t) == HeadBytes(2, |bytes|) + bytes;
    case Bool(b) => BoolReads(input, pos, b, rest);
    case UInt(n) => PlainTokenReads(input, pos, 0, n, rest);
    case ArrayOf(n) => PlainTokenReads(input, pos, 4, n, rest);
    case MapOf(n) => PlainTokenReads(input, pos, 5, n, rest);
  }

  /** Different token streams have different encodings, and none is a prefix of another's. */
  lemma {:induction false} TokensAreUnique(a: seq<Token>, b: seq<Token>)
    requires AllFit(a) && AllFit(b) && EncodeTokens(a) == EncodeTokens(b)
    ensures a == b
  {
    if a != [] { EncodeCons(a); }
    if b != [] { EncodeCons(b); }
    if a != [] && b != [] {
      var input := EncodeTokens(a);
      assert input[0..] == input;
      TokenReads(input, 0, a[0], EncodeTokens(a[1..]));
      TokenReads(input, 0, b[0], EncodeTokens(b[1..]));
      TokensAreUnique(a[1..], b[1..]);
      assert a == [a[0]] + a[1..] && b == [b[0]] + b[1..];
    }
  }

  function Size(t: Token): nat {
    |TokenBytes(t)|
  }

  lemma SizeFrom(tokens: seq<Token>, k: nat)
    requires k < |tokens|
    ensures |EncodeTokens(tokens[k..])| == Size(tokens[k]) + |EncodeTokens(tokens[k + 1..])|
  {
    EncodeCons(tokens[k..]);
    assert tokens[k..][1..] == tokens[k + 1..];
  }

  // ----- the writer and the reader

  class Encoder {
    var output: Bytes

    constructor ()
      ensures output == []
    {
      output := [];
    }

    method Write(tokens: seq<Token>)
      modifies this
      ensures output == old(output) + EncodeTokens(tokens)
    {
      for i := 0 to |tokens|
        invariant output == old(output) + EncodeTokens(tokens[..i])
      {
        EncodeSnoc(tokens[..i], tokens[i]);
        assert tokens[..i + 1] == tokens[..i] + [tokens[i]];
        Associative(old(output), EncodeTokens(tokens[..i]), TokenBytes(tokens[i]));
        output := output + TokenBytes(tokens[i]);
      }
      assert tokens[..|tokens|] == tokens;
    }
  }

  /** A cursor over the input.  While the ghost `following` holds, the rest of the input is known to encode the
      ghost `script` from `at` on: reading the token there succeeds and moves past it. */
  class Decoder {
    const input: Bytes
    var pos: nat
    ghost const script: seq<Token>
    ghost var at: nat
    ghost var following: bool

    ghost predicate Valid()
      reads this
    {
      && pos <= |input|
      && (following ==> at <= |script| && AllFit(script) && input[pos..] == EncodeTokens(script[at..]))
    }

    /** The next token is known. */
    ghost predicate Coming()
      reads this
    {
      following && at < |script|
    }

    /** The cursor has moved past the known token. */
    ghost predicate Passed(before: nat)
      reads this
    {
      following && at == before + 1
    }

    /** The tokens are the next ones. */
    ghost predicate Follows(tokens: seq<Token>)
      reads this
    {
      following && at + |tokens| <= |script| && forall k :: 0 <= k < |tokens| ==> script[at + k] == tokens[k]
    }

    constructor (input: Bytes, ghost script: seq<Token>, ghost following: bool)
      requires following ==> AllFit(script) && input == EncodeTokens(script)
      ensures Valid() && this.input == input && this.script == script && this.following == following && at == 0
      ensures pos == 0
    {
      this.input, this.pos, this.script, this.at, this.following := input, 0, script, 0, following;
      assert script[0..] == script;
    }

    method Read() returns (t: Option<Token>)
      requires Valid()
      modifies this
      ensures Valid()
      ensures old(Coming()) ==> t == Some(script[old(at)]) && Passed(old(at))
    {
      var read := ParseToken(input, pos);
      following := following && at < |script|;
      if following {
        EncodeCons(script[at..]);
        assert script[at] in script && script[at..][1..] == script[at + 1..];
        TokenReads(input, pos, script[at], EncodeTokens(script[at + 1..]));
        at := at + 1;
      }
      if read.None? { return None; }
      t, pos := Some(read.value.0), read.value.1;
    }

    method ReadUInt(maximum: nat) returns (r: Result<nat, Error>)
      requires Valid()
      modifies this
      ensures Valid() && (r.Ok? ==> r.value <= maximum)
      ensures old(Coming()) && script[old(at)].UInt? && script[old(at)].n <= maximum ==>
                r == Ok(script[old(at)].n) && Passed(old(at))
    {
      var t := Read();
      if t.Some? && t.value.UInt? && t.value.n <= maximum { return Ok(t.value.n); }
      r := Err(Malformed);
    }

    method ReadBytes() returns (r: Result<Bytes, Error>)
      requires Valid()
      modifies this
      ensures Valid()
      ensures old(Coming()) && script[old(at)].ByteString? ==> r == Ok(script[old(at)].bytes) && Passed(old(at))
    {
      var t := Read();
      if t.Some? && t.value.ByteString? { return Ok(t.value.bytes); }
      r := Err(Malformed);
    }

    method ReadArray() returns (r: Result<nat, Error>)
      requires Valid()
      modifies this
      ensures Valid()
      ensures old(Coming()) && script[old(at)].ArrayOf? ==> r == Ok(script[old(at)].count) && Passed(old(at))
    {
      var t := Read();
      if t.Some? && t.value.ArrayOf? { return Ok(t.value.count); }
      r := Err(Malformed);
    }

    method ReadBool() returns (r: Result<bool, Error>)
      requires Valid()
      modifies this
      ensures Valid()
      ensures old(Coming()) && script[old(at)].Bool? ==> r == Ok(script[old(at)].value) && Passed(old(at))
    {
      var t := Read();
      if t.Some? && t.value.Bool? { return Ok(t.value.value); }
      r := Err(Malformed);
    }

    /** A token with one permitted value: a key, a version, a map size or an array length. */
    method Expect(expected: Token) returns (r: Result<bool, Error>)
      requires Valid()
      modifies this
      ensures Valid()
      ensures old(Coming()) && script[old(at)] == expected ==> r.Ok? && Passed(old(at))
    {
      var t := Read();
      r := if t == Some(expected) then Ok(true) else Err(InvalidFormat);
    }
  }
}
