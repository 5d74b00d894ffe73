/** File names parsed into the first 32 bytes of a file control block. */
module FileName {
  import opened Basics
  import opened Sectors

  const BLANK: byte := 32
  const DOT: byte := 46
  const COLON: byte := 58
  const STAR: byte := 42
  const SEMI: byte := 59
  const QUERY: byte := 63

  /** The character at `p` of a NUL-terminated name. */
  function At(name: seq<byte>, p: nat): byte {
    if p < |name| then name[p] else 0
  }

  predicate IsDelimiter(c: byte) {
    c in [60, 62, DOT, 44, 61, COLON, 124, 91, 93, STAR, 10, 13]
  }

  predicate IsDigit(c: byte) {
    48 <= c <= 57
  }

  function Upper(c: byte): byte {
    if 97 <= c <= 122 then c - 32 else c
  }

  function UpperAll(s: seq<byte>): (r: seq<byte>)
    ensures |r| == |s| && forall i :: 0 <= i < |s| ==> r[i] == Upper(s[i])
  {
    seq(|s|, i requires 0 <= i < |s| => Upper(s[i]))
  }

  /** How many characters from `p` on make a token of at most `n`. */
  function TokenLength(name: seq<byte>, p: nat, n: nat): (k: nat)
    ensures k <= n
    ensures forall i :: p <= i < p + k ==> At(name, i) != 0 && !IsDelimiter(At(name, i))
    decreases n
  {
    if n == 0 || At(name, p) == 0 || IsDelimiter(At(name, p)) then 0 else 1 + TokenLength(name, p + 1, n - 1)
  }

  function Chars(name: seq<byte>, p: nat, n: nat): (t: seq<byte>)
    ensures |t| == n && forall i :: 0 <= i < n ==> t[i] == At(name, p + i)
  {
    if n == 0 then [] else Chars(name, p, n - 1) + [At(name, p + n - 1)]
  }

  /** The token at `p`. */
  function Token(name: seq<byte>, p: nat): seq<byte> {
    Chars(name, p, TokenLength(name, p, 32))
  }

  lemma CharsNext(name: seq<byte>, p: nat, n: nat)
    ensures Chars(name, p, n) + [At(name, p + n)] == Chars(name, p, n + 1)
    ensures Chars(name, p, 0) == []
  {
  }

  lemma TokenLengthStep(name: seq<byte>, p: nat, n: nat)
    ensures var more := n > 0 && At(name, p) != 0 && !IsDelimiter(At(name, p));
      TokenLength(name, p, n) == if more then 1 + TokenLength(name, p + 1, n - 1) else 0
  {
  }

  method GetToken(name: seq<byte>, start: nat) returns (tok: seq<byte>, p: nat)
    ensures tok == Token(name, start) && p == start + |tok| && 0 !in tok
  {
    hide *;
    tok, p := [], start;
    var len := 32;
    CharsNext(name, start, 0);
    while At(name, p) != 0 && !IsDelimiter(At(name, p)) && len != 0
      invariant 0 <= len <= 32 && p == start + |tok| && |tok| == 32 - len
      invariant TokenLength(name, start, 32) == |tok| + TokenLength(name, p, len)
      invariant tok == Chars(name, start, |tok|)
      decreases len
    {
      CharsNext(name, start, |tok|);
      TokenLengthStep(name, p, len);
      tok := tok + [At(name, p)];
      p, len := p + 1, len - 1;
    }
    TokenLengthStep(name, p, len);
    TokenMade(name, start, tok);
  }

  lemma TokenMade(name: seq<byte>, p: nat, tok: seq<byte>)
    requires |tok| == TokenLength(name, p, 32) && tok == Chars(name, p, |tok|)
    ensures tok == Token(name, p) && 0 !in tok
  {
  }

  /** A token, in capitals and cut off, put into a field. */
  function Put(fcb: seq<byte>, at: nat, tok: seq<byte>, size: nat): (r: seq<byte>)
    requires at + size <= |fcb|
    ensures |r| == |fcb|
  {
    Patch(fcb, at, UpperAll(tok[..Min(|tok|, size)]))
  }

  method StrCpy(tok: seq<byte>, fcb: array<byte>, at: nat, size: nat)
    requires at + size <= fcb.Length && 0 !in tok
    modifies fcb
    ensures fcb[..] == Put(old(fcb[..]), at, tok, size)
  {
    var i := 0;
    while i < |tok| && i < size
      invariant 0 <= i <= Min(|tok|, size)
      invariant forall k :: 0 <= k < fcb.Length ==>
        fcb[k] == if at <= k < at + i then Upper(tok[k - at]) else old(fcb[k])
    {
      fcb[at + i] := Upper(tok[i]);
      i := i + 1;
    }
    IsPatch(fcb[..], old(fcb[..]), at, UpperAll(tok[..Min(|tok|, size)]));
  }

  function Fill(fcb: seq<byte>, at: nat, size: nat, c: byte): (r: seq<byte>)
    requires at + size <= |fcb|
    ensures |r| == |fcb|
  {
    Patch(fcb, at, seq(size, _ => c))
  }

  method BlkFill(fcb: array<byte>, at: nat, size: nat, c: byte)
    requires at + size <= fcb.Length
    modifies fcb
    ensures fcb[..] == Fill(old(fcb[..]), at, size, c)
  {
    forall k | at <= k < at + size {
      fcb[k] := c;
    }
    IsPatch(fcb[..], old(fcb[..]), at, seq(size, _ => c));
  }

  /** A signed 16-bit and a stored 8-bit value. */
  function SWord(x: int): int {
    (x + 0x8000) % 0x1_0000 - 0x8000
  }

  function Stored(x: int): byte {
    x % 256
  }

  /** A stored byte read as a signed one is larger than `n`. */
  predicate Exceeds(b: byte, n: byte) {
    n < b < 128
  }

  function DigitCount(tok: seq<byte>): (n: nat)
    ensures n <= |tok| && (n < |tok| ==> !IsDigit(tok[n])) && forall i :: 0 <= i < n ==> IsDigit(tok[i])
  {
    if tok == [] || !IsDigit(tok[0]) then 0 else 1 + DigitCount(tok[1..])
  }

  /** The number that digits make in 16 bits. */
  function Number(digits: seq<byte>): int {
    if digits == [] then 0 else SWord(Number(digits[..|digits| - 1]) * 10 + digits[|digits| - 1] - 48)
  }

  /** The user and drive bytes of a `ud:` prefix, and whether it is a good one. */
  function UserDrive(tok: seq<byte>): (byte, byte, bool) {
    var n := DigitCount(tok);
    var user: byte := if n == 0 then 0 else Stored(Number(tok[..n]) + 1);
    var drive: byte := if n == |tok| then 0 else Stored(Upper(tok[n]) as int - 64);
    (user, drive, |tok| <= n + 1 && !Exceeds(user, 16) && !Exceeds(drive, 15))
  }

  predicate AllDigits(digits: seq<byte>) {
    forall i :: 0 <= i < |digits| ==> IsDigit(digits[i])
  }

  /** The number that digits stand for. */
  function Decimal(digits: seq<byte>): (v: nat)
    requires AllDigits(digits)
  {
    if digits == [] then 0 else 10 * Decimal(digits[..|digits| - 1]) + (digits[|digits| - 1] as int - 48)
  }

  lemma SWordMod(x: int, k: int)
    ensures SWord(x + k * 0x1_0000) == SWord(x)
    ensures (SWord(x) - x) % 0x1_0000 == 0
  {
    var q, r := (x + 0x8000) / 0x1_0000, (x + 0x8000) % 0x1_0000;
    Remainder(x + k * 0x1_0000 + 0x8000, q + k, r, 0x1_0000);
    Remainder(SWord(x) - x, -q, 0, 0x1_0000);
  }

  /** What is counted is the number, but in 16 bits. */
  lemma {:induction false} NumberIs(digits: seq<byte>)
    requires AllDigits(digits)
    ensures Number(digits) == SWord(Decimal(digits))
    decreases |digits|
  {
    if digits == [] {
    } else {
      hide SWord;
      var front := digits[..|digits| - 1];
      var v, d := Decimal(front), digits[|digits| - 1] as int - 48;
      NumberIs(front);
      SWordMod(v, 0);
      var k := (SWord(v) - v) / 0x1_0000;
      assert SWord(v) * 10 + d == 10 * v + d + 10 * k * 0x1_0000;
      SWordMod(10 * v + d, 10 * k);
    }
  }

  /** The bytes of a prefix in terms of the true number and the letter, and which prefixes
      are accepted: numbers that leave a small or a "negative" byte when one is added, and
      letters that leave one, capitals and small ones A to O among them. */
  lemma WhichPrefixes(tok: seq<byte>)
    ensures var n := DigitCount(tok);
      var v := Decimal(tok[..n]);
      var (user, drive, ok) := UserDrive(tok);
      && (forall i :: 0 <= i < n ==> 48 <= tok[i] <= 57) && (n < |tok| ==> !(48 <= tok[n] <= 57))
      && user == (if n == 0 then 0 else (v + 1) % 256)
      && drive == (if n == |tok| then 0
                   else ((if 97 <= tok[n] <= 122 then tok[n] - 32 else tok[n]) as int - 64) % 256)
      && (ok <==>
            && |tok| <= n + 1
            && (n > 0 ==> (v + 1) % 256 <= 16 || 128 <= (v + 1) % 256)
            && (n < |tok| ==> tok[n] <= 79 || 97 <= tok[n] <= 111 || 192 <= tok[n]))
  {
    DigitsInNumbers(tok);
    hide Number, SWord, Stored, Exceeds, Upper, DigitCount, Decimal, IsDigit;
    var n := DigitCount(tok);
    NumberIs(tok[..n]);
    UserByte(Decimal(tok[..n]));
    if n < |tok| {
      DriveByte(tok[n]);
    }
    Small(0, 16);
    Small(0, 15);
  }

  lemma DigitsInNumbers(tok: seq<byte>)
    ensures var n := DigitCount(tok);
      (forall i :: 0 <= i < n ==> 48 <= tok[i] <= 57) && (n < |tok| ==> !(48 <= tok[n] <= 57))
  {
    hide DigitCount;
  }

  lemma UserByte(v: nat)
    ensures Stored(SWord(v) + 1) == (v + 1) % 256
    ensures Exceeds(Stored(SWord(v) + 1), 16) <==> 16 < (v + 1) % 256 < 128
  {
    hide SWord;
    var x := SWord(v);
    SWordMod(v, 0);
    ByteOf(v + 1, (x - v) / 0x1_0000);
    assert x + 1 == v + 1 + (x - v) / 0x1_0000 * 0x1_0000;
  }

  lemma ByteOf(a: int, k: int)
    ensures (a + k * 0x1_0000) % 256 == a % 256
  {
    Remainder(a + k * 0x1_0000, a / 256 + 256 * k, a % 256, 256);
  }

  lemma DriveByte(c: byte)
    ensures Stored(Upper(c) as int - 64) == ((if 97 <= c <= 122 then c - 32 else c) as int - 64) % 256
    ensures !Exceeds(Stored(Upper(c) as int - 64), 15) <==> c <= 79 || 97 <= c <= 111 || 192 <= c
  {
  }

  lemma Small(b: byte, n: byte)
    requires b <= n
    ensures !Exceeds(b, n)
  {
  }

  /** A prefix that says what it is taken for: a user up to 15, a drive up to O. */
  predicate RightPrefix(tok: seq<byte>) {
    var n := DigitCount(tok);
    && |tok| <= n + 1
    && (n > 0 ==> Decimal(tok[..n]) <= 15)
    && (n < |tok| ==> 65 <= Upper(tok[n]) <= 79)
  }

  lemma RightIsAccepted(tok: seq<byte>)
    requires RightPrefix(tok)
    ensures UserDrive(tok).2
  {
    WhichPrefixes(tok);
  }

  /** Others are accepted too: user 256 is taken for user 0, and a dollar sign for a
      drive. */
  lemma WrongIsAccepted()
    ensures UserDrive([50, 53, 54]) == (1, 0, true) && !RightPrefix([50, 53, 54])
    ensures UserDrive([36]) == (0, 228, true) && !RightPrefix([36])
  {
    hide UserDrive;
    WhichPrefixes([50, 53, 54]);
    WhichPrefixes([36]);
    assert [50, 53, 54][1..] == [53, 54] && [53, 54][1..] == [54] && [54][1..] == [];
    assert DigitCount([54]) == 1 && DigitCount([53, 54]) == 2 && DigitCount([50, 53, 54]) == 3;
    assert [50, 53, 54][..3] == [50, 53, 54] && [50, 53, 54][..2] == [50, 53];
    assert [50, 53][..1] == [50] && [50][..0] == [];
    assert Decimal([50]) == 2 && Decimal([50, 53]) == 25 && Decimal([50, 53, 54]) == 256;
  }

  method StuffDrive(tok: seq<byte>, fcb: array<byte>) returns (ok: bool)
    requires fcb.Length == 32 && 0 !in tok && fcb[0] == 0 == fcb[24]
    modifies fcb
    ensures ok == UserDrive(tok).2
    ensures fcb[..] == old(fcb[..])[24 := UserDrive(tok).0][0 := UserDrive(tok).1]
  {
    var i, src := 0, 0;
    assert tok[..0] == [];
    while src < |tok| && IsDigit(tok[src])
      invariant 0 <= src <= DigitCount(tok)
      invariant i == Number(tok[..src])
      invariant fcb[..] == old(fcb[..])[24 := if src == 0 then 0 else Stored(Number(tok[..src]) + 1)]
    {
      assert tok[..src + 1][..src] == tok[..src];
      DigitsGoOn(tok, src);
      i := SWord(i * 10 + tok[src] - 48);
      src := src + 1;
      fcb[24] := Stored(i + 1);
    }
    DigitsGoOn(tok, src);
    if src < |tok| {
      fcb[0] := Stored(Upper(tok[src]) as int - 64);
      src := src + 1;
    }
    ok := !(src < |tok| || Exceeds(fcb[24], 16) || Exceeds(fcb[0], 15));
  }

  lemma {:induction false} DigitsGoOn(tok: seq<byte>, n: nat)
    requires n <= DigitCount(tok)
    ensures n < |tok| && IsDigit(tok[n]) <==> n < DigitCount(tok)
  {
  }

  /** Where the parser stands: the block so far, and the place in the name. */
  datatype Stage = Stage(fcb: seq<byte>, p: nat)

  function Blank(): (fcb: seq<byte>)
    ensures |fcb| == 32 && fcb[0] == 0 == fcb[24]
  {
    Fill(Zeros(32), 1, 11, BLANK)
  }

  /** A name or type field: its token, spread with question marks by a star. */
  function Field(s: Stage, name: seq<byte>, tok: seq<byte>, at: nat, size: nat): (r: Stage)
    requires |s.fcb| == 32 && at + size <= 32
    ensures |r.fcb| == 32
  {
    if At(name, s.p) == STAR then Stage(Put(Fill(s.fcb, at, size, QUERY), at, tok, size), s.p + 1)
    else Stage(Put(s.fcb, at, tok, size), s.p)
  }

  function TypePart(s: Stage, name: seq<byte>): (r: Stage)
    requires |s.fcb| == 32
    ensures |r.fcb| == 32
  {
    if At(name, s.p) != DOT then s
    else var tok := Token(name, s.p + 1); Field(Stage(s.fcb, s.p + 1 + |tok|), name, tok, 9, 3)
  }

  /** A password. A semicolon does not end a token, so one is looked for only after
      a star. */
  function PasswordPart(s: Stage, name: seq<byte>): (r: Stage)
    requires |s.fcb| == 32
    ensures |r.fcb| == 32
  {
    if At(name, s.p) != SEMI then s
    else var tok := Token(name, s.p + 1); Stage(Put(s.fcb, 16, tok, 8), s.p + 1 + |tok|)
  }

  function AfterPrefix(fcb: seq<byte>, name: seq<byte>, p: nat, tok: seq<byte>): (r: Stage)
    requires |fcb| == 32
    ensures |r.fcb| == 32
  {
    PasswordPart(TypePart(Field(Stage(fcb, p), name, tok, 1, 8), name), name)
  }

  /** The block before the name goes in, the name's token and the place after it, or
      nothing when the prefix is bad. */
  function Prefix(name: seq<byte>): (r: (bool, seq<byte>, seq<byte>, nat))
    ensures |r.1| == 32
  {
    var tok := Token(name, 0);
    if At(name, |tok|) != COLON then (true, Blank(), tok, |tok|)
    else
      var ud := UserDrive(tok);
      var next := Token(name, |tok| + 1);
      (ud.2, Blank()[24 := ud.0][0 := ud.1], next, |tok| + 1 + |next|)
  }

  predicate Ends(c: byte) {
    c == 0 || c == 10 || c == 13
  }

  function Parse(name: seq<byte>): (r: (bool, seq<byte>))
    ensures |r.1| == 32
  {
    var (ok, fcb, tok, p) := Prefix(name);
    if !ok then (false, fcb)
    else var s := AfterPrefix(fcb, name, p, tok); (Ends(At(name, s.p)), s.fcb)
  }

  /** The first half of the parser: an empty block, and the prefix if there is one. */
  method ParsePrefix(name: seq<byte>, fcb: array<byte>) returns (ok: bool, tok: seq<byte>, p: nat)
    requires fcb.Length == 32
    modifies fcb
    ensures ok == Prefix(name).0 && fcb[..] == Prefix(name).1 && 0 !in tok
    ensures ok ==> (ok, fcb[..], tok, p) == Prefix(name)
  {
    hide Token, TokenLength, Chars, UserDrive, Blank, Put, Field, IsDelimiter, At;
    MakeBlank(fcb);
    ok := true;
    tok, p := GetToken(name, 0);
    if At(name, p) == COLON {
      ok := StuffDrive(tok, fcb);
      if ok {
        tok, p := GetToken(name, p + 1);
      }
    }
  }

  /** The parser, on the block itself. */
  method ParseFn(name: seq<byte>, fcb: array<byte>) returns (ok: bool)
    requires fcb.Length == 32
    modifies fcb
    ensures (ok, fcb[..]) == Parse(name)
  {
    hide Prefix, Field, TypePart, PasswordPart;
    var tok, p;
    ok, tok, p := ParsePrefix(name, fcb);
    if !ok {
      return;
    }
    p := FieldInto(name, p, tok, fcb, 1, 8);
    p := TypeInto(name, p, fcb);
    p := PasswordInto(name, p, fcb);
    ok := Ends(At(name, p));
  }

  method TypeInto(name: seq<byte>, p: nat, fcb: array<byte>) returns (next: nat)
    requires fcb.Length == 32
    modifies fcb
    ensures Stage(fcb[..], next) == TypePart(Stage(old(fcb[..]), p), name)
  {
    hide Token, TokenLength, Chars, UserDrive, Blank, Put, Field, IsDelimiter, At, PasswordPart;
    next := p;
    if At(name, p) == DOT {
      var tok;
      tok, next := GetToken(name, p + 1);
      next := FieldInto(name, next, tok, fcb, 9, 3);
    }
  }

  method PasswordInto(name: seq<byte>, p: nat, fcb: array<byte>) returns (next: nat)
    requires fcb.Length == 32
    modifies fcb
    ensures Stage(fcb[..], next) == PasswordPart(Stage(old(fcb[..]), p), name)
  {
    hide Token, TokenLength, Chars, UserDrive, Blank, Put, Field, IsDelimiter, At, TypePart;
    next := p;
    if At(name, p) == SEMI {
      var tok;
      tok, next := GetToken(name, p + 1);
      StrCpy(tok, fcb, 16, 8);
    }
  }

  method MakeBlank(fcb: array<byte>)
    requires fcb.Length == 32
    modifies fcb
    ensures fcb[..] == Blank()
  {
    BlkFill(fcb, 0, 32, 0);
    assert fcb[..] == Zeros(32);
    BlkFill(fcb, 1, 11, BLANK);
  }

  method FieldInto(name: seq<byte>, p: nat, tok: seq<byte>, fcb: array<byte>, at: nat, size: nat) returns (next: nat)
    requires fcb.Length == 32 && at + size <= 32 && 0 !in tok
    modifies fcb
    ensures Stage(fcb[..], next) == Field(Stage(old(fcb[..]), p), name, tok, at, size)
  {
    next := p;
    if At(name, next) == STAR {
      BlkFill(fcb, at, size, QUERY);
      next := next + 1;
    }
    StrCpy(tok, fcb, at, size);
  }

  /** A file name with its parts told apart: a prefix, a name and a type, each of these
      maybe with a star, and a password. */
  datatype Spec = Spec(
    prefixed: bool, prefix: seq<byte>, name: seq<byte>, nameStar: bool,
    dot: bool, typ: seq<byte>, typStar: bool, semi: bool, password: seq<byte>)

  /** The parts that are not there are empty. */
  predicate Tidy(f: Spec) {
    && (!f.prefixed ==> f.prefix == []) && (!f.dot ==> f.typ == [] && !f.typStar) && (!f.semi ==> f.password == [])
  }

  /** The name as it is written: 58 ends a prefix, 42 is a star, 46 starts a type and 59 a
      password. */
  function Written(f: Spec): seq<byte> {
    (if f.prefixed then f.prefix + [58] else [])
    + (f.name
       + ((if f.nameStar then [42] else [])
          + ((if f.dot then [46] + f.typ else [])
             + ((if f.typStar then [42] else [])
                + (if f.semi then [59] + f.password else [])))))
  }

  /** No character that ends a token, by number: none of `<>.,=:|[]*`, LF, CR and NUL. */
  predicate PlainByte(c: byte) {
    c != 0 && c != 60 && c != 62 && c != 46 && c != 44 && c != 61 && c != 58 && c != 124 && c != 91 && c != 93 &&
    c != 42 && c != 10 && c != 13
  }

  predicate Plain(t: seq<byte>) {
    |t| <= 32 && forall c :: c in t ==> PlainByte(c)
  }

  /** Every part is one that can be told apart: a password sign does not end a token, so it
      comes after a star or after 32 characters. */
  predicate Writable(f: Spec) {
    && Tidy(f) && Plain(f.prefix) && Plain(f.name) && Plain(f.typ) && Plain(f.password)
    && (f.semi && !f.nameStar && !f.dot ==> |f.name| == 32)
    && (f.semi && f.dot && !f.typStar ==> |f.typ| == 32)
  }

  /** The name stands at the start of the string, and the string or the line ends after it. */
  predicate Holds(name: seq<byte>, f: Spec) {
    Written(f) <= name && (|name| == |Written(f)| || name[|Written(f)|] in [0, 10, 13])
  }

  /** A field of the block: capitals, cut off or filled up. */
  function FieldByte(t: seq<byte>, star: bool, i: nat): byte {
    if i < |t| then (if 97 <= t[i] <= 122 then t[i] - 32 else t[i]) else if star then 63 else 32
  }

  /** The block that a name stands for. */
  function FcbOf(f: Spec): (fcb: seq<byte>)
    ensures |fcb| == 32
  {
    seq(32, i requires 0 <= i < 32 =>
      if i == 0 then (if f.prefixed then UserDrive(f.prefix).1 else 0)
      else if i < 9 then FieldByte(f.name, f.nameStar, i - 1)
      else if i < 12 then FieldByte(f.typ, f.typStar, i - 9)
      else if 16 <= i < 24 && i - 16 < |f.password| then FieldByte(f.password, false, i - 16)
      else if i == 24 then (if f.prefixed then UserDrive(f.prefix).0 else 0)
      else 0)
  }

  /** `t` is at `p`, and it is as long as a token can be there. */
  predicate TokenAt(name: seq<byte>, p: nat, t: seq<byte>) {
    && p + |t| <= |name| && name[p..p + |t|] == t && Plain(t)
    && (|t| == 32 || At(name, p + |t|) == 0 || IsDelimiter(At(name, p + |t|)))
  }

  lemma PlainByteIs(c: byte)
    ensures PlainByte(c) <==> c != 0 && !IsDelimiter(c)
  {
  }

  lemma {:induction false} TokenLengthIs(name: seq<byte>, p: nat, t: seq<byte>, n: nat)
    requires p + |t| <= |name| && name[p..p + |t|] == t && |t| <= n
    requires forall i :: 0 <= i < |t| ==> t[i] != 0 && !IsDelimiter(t[i])
    requires |t| == n || At(name, p + |t|) == 0 || IsDelimiter(At(name, p + |t|))
    ensures TokenLength(name, p, n) == |t|
    decreases |t|
  {
    hide IsDelimiter;
    if t == [] {
    } else {
      assert name[p] == t[0];
      assert name[p + 1..p + |t|] == t[1..];
      TokenLengthIs(name, p + 1, t[1..], n - 1);
    }
  }

  lemma {:induction false} TokenLengthEnds(name: seq<byte>, p: nat, n: nat)
    requires p <= |name|
    ensures var k := TokenLength(name, p, n);
      p + k <= |name| && (k == n || At(name, p + k) == 0 || IsDelimiter(At(name, p + k)))
    decreases n
  {
    hide IsDelimiter;
    if n == 0 || At(name, p) == 0 || IsDelimiter(At(name, p)) {
    } else {
      TokenLengthEnds(name, p + 1, n - 1);
    }
  }

  /** The token at a place is the one text that is as long as it can be. */
  lemma TokenIs(name: seq<byte>, p: nat, t: seq<byte>)
    requires p <= |name|
    ensures Token(name, p) == t <==> TokenAt(name, p, t)
  {
    hide TokenAt, Token;
    TokenIsThere(name, p);
    if TokenAt(name, p, t) {
      LongestIsToken(name, p, t);
    }
  }

  lemma TokenIsThere(name: seq<byte>, p: nat)
    requires p <= |name|
    ensures TokenAt(name, p, Token(name, p))
  {
    hide IsDelimiter, Plain, At, TokenLength;
    var t := Token(name, p);
    TokenLengthEnds(name, p, 32);
    CharsAre(name, p, |t|);
    PlainIs(t);
  }

  lemma CharsAre(name: seq<byte>, p: nat, n: nat)
    requires p + n <= |name|
    ensures Chars(name, p, n) == name[p..p + n]
  {
    hide Chars;
  }

  lemma LongestIsToken(name: seq<byte>, p: nat, t: seq<byte>)
    requires TokenAt(name, p, t)
    ensures Token(name, p) == t
  {
    hide IsDelimiter, Plain;
    PlainIs(t);
    TokenLengthIs(name, p, t, 32);
    assert forall i :: 0 <= i < |t| ==> t[i] == name[p..p + |t|][i];
  }

  lemma PlainIs(t: seq<byte>)
    ensures Plain(t) <==> |t| <= 32 && forall i :: 0 <= i < |t| ==> t[i] != 0 && !IsDelimiter(t[i])
  {
    forall c: byte ensures PlainByte(c) <==> c != 0 && !IsDelimiter(c) {
      PlainByteIs(c);
    }
    hide IsDelimiter, PlainByte;
    assert forall i :: 0 <= i < |t| ==> t[i] in t;
    assert forall c :: c in t ==> exists i :: 0 <= i < |t| && t[i] == c;
  }


  function Digits(n: nat): seq<byte>
    requires n < 16
  {
    if n < 10 then [48 + n] else [49, 38 + n]
  }

  function DriveLetter(drive: nat, small: bool): seq<byte>
    requires drive <= 15
  {
    if drive == 0 then [] else [(if small then 96 else 64) + drive]
  }

  /** A prefix as one types it: a user number, and a drive letter that may be small. */
  function Letters(user: nat, drive: nat, small: bool): seq<byte>
    requires user <= 16 && drive <= 15
  {
    (if user == 0 then [] else Digits(user - 1)) + DriveLetter(drive, small)
  }

  lemma {:induction false} DigitsThen(d: seq<byte>, rest: seq<byte>)
    requires (forall i :: 0 <= i < |d| ==> IsDigit(d[i])) && (rest != [] ==> !IsDigit(rest[0]))
    ensures DigitCount(d + rest) == |d|
    decreases |d|
  {
    if d == [] {
      assert d + rest == rest;
    } else {
      assert (d + rest)[1..] == d[1..] + rest;
      DigitsThen(d[1..], rest);
    }
  }

  lemma DecimalOfDigits(n: nat)
    requires n < 16
    ensures AllDigits(Digits(n)) && Decimal(Digits(n)) == n
  {
    var d := Digits(n);
    assert d[..|d| - 1] == if n < 10 then [] else [49];
    assert [49][..0] == [];
    assert Decimal([49]) == 1;
  }

  /** The prefix says what was typed: one more than the user number or 0 for none, and the
      drive from 1 on or 0 for none. */
  lemma UserDriveOf(user: nat, drive: nat, small: bool)
    requires user <= 16 && drive <= 15
    ensures UserDrive(Letters(user, drive, small)) == (user as byte, drive as byte, true)
    ensures Plain(Letters(user, drive, small))
  {
    hide UserDrive, Decimal, DigitCount, Digits, DriveLetter, Upper, IsDigit;
    var d := if user == 0 then [] else Digits(user - 1);
    var rest := DriveLetter(drive, small);
    DriveLetterIs(drive, small);
    if user > 0 {
      DecimalOfDigits(user - 1);
      DigitsAre(user - 1);
    }
    DigitsThen(d, rest);
    assert Letters(user, drive, small) == d + rest && (d + rest)[..|d|] == d;
    assert rest != [] ==> (d + rest)[|d|] == rest[0];
    WhichPrefixes(Letters(user, drive, small));
  }

  lemma DigitsAre(n: nat)
    requires n < 16
    ensures 0 < |Digits(n)| <= 2 && Plain(Digits(n)) && forall i :: 0 <= i < |Digits(n)| ==> IsDigit(Digits(n)[i])
  {
  }

  lemma DriveLetterIs(drive: nat, small: bool)
    requires drive <= 15
    ensures var l := DriveLetter(drive, small);
      && |l| == (if drive == 0 then 0 else 1) && Plain(l)
      && (drive > 0 ==>
            && !IsDigit(l[0]) && (65 <= l[0] <= 79 || 97 <= l[0] <= 111)
            && drive == (if 97 <= l[0] <= 122 then l[0] - 32 else l[0]) as int - 64)
  {
  }

  /** A field at `p` with its star, and what follows it. */
  lemma FieldOf(fcb: seq<byte>, name: seq<byte>, p: nat, t: seq<byte>, star: bool, at: nat, size: nat)
    requires |fcb| == 32 && at + size <= 32
    requires star <==> At(name, p) == STAR
    requires forall i :: at <= i < at + size ==> fcb[i] == BLANK
    ensures var r := Field(Stage(fcb, p), name, t, at, size);
      && r.p == (if star then p + 1 else p)
      && forall i :: 0 <= i < 32 ==>
           r.fcb[i] == if at <= i < at + size then FieldByte(t, star, i - at) else fcb[i]
  {
  }

  /** Where the parts are: where the name, the star after it, the type, the star after
      that and the password start, and where the password ends. */
  datatype Places = Places(name: nat, star: nat, typ: nat, typStar: nat, password: nat, end: nat)

  function PlacesOf(f: Spec): Places {
    var a := if f.prefixed then |f.prefix| + 1 else 0;
    var b := a + |f.name|;
    var c := if f.nameStar then b + 1 else b;
    var d := if f.dot then c + 1 + |f.typ| else c;
    var e := if f.typStar then d + 1 else d;
    Places(a, b, c, d, e, if f.semi then e + 1 + |f.password| else e)
  }

  /** What the parser reads in a string: a prefix if a colon follows the first token, */
  predicate ReadsName(name: seq<byte>, prefixed: bool, prefix: seq<byte>, n: seq<byte>, star: bool) {
    var a := if prefixed then |prefix| + 1 else 0;
    && (if prefixed then TokenAt(name, 0, prefix) && At(name, |prefix|) == COLON else prefix == [])
    && TokenAt(name, a, n) && (!prefixed ==> At(name, |n|) != COLON)
    && (star <==> At(name, a + |n|) == STAR)
  }

  /** a type if a dot comes next, */
  predicate ReadsType(name: seq<byte>, p: nat, dot: bool, typ: seq<byte>, star: bool) {
    && (dot <==> At(name, p) == DOT)
    && (if dot then TokenAt(name, p + 1, typ) && (star <==> At(name, p + 1 + |typ|) == STAR) else typ == [] && !star)
  }

  /** and a password if a semicolon comes next. */
  predicate ReadsPassword(name: seq<byte>, p: nat, semi: bool, password: seq<byte>) {
    && (semi <==> At(name, p) == SEMI)
    && (if semi then TokenAt(name, p + 1, password) else password == [])
  }

  predicate Reads(name: seq<byte>, f: Spec) {
    var w := PlacesOf(f);
    && ReadsName(name, f.prefixed, f.prefix, f.name, f.nameStar)
    && ReadsType(name, w.typ, f.dot, f.typ, f.typStar)
    && ReadsPassword(name, w.password, f.semi, f.password)
  }

  lemma SomeName(name: seq<byte>) returns (prefixed: bool, prefix: seq<byte>, n: seq<byte>, star: bool)
    ensures ReadsName(name, prefixed, prefix, n, star)
  {
    hide IsDelimiter, Token, Plain;
    prefix, n := [], Token(name, 0);
    TokenIs(name, 0, n);
    prefixed := At(name, |n|) == COLON;
    if prefixed {
      prefix, n := n, Token(name, |n| + 1);
      TokenIs(name, |prefix| + 1, n);
    }
    star := At(name, (if prefixed then |prefix| + 1 else 0) + |n|) == STAR;
  }

  lemma SomeType(name: seq<byte>, p: nat) returns (dot: bool, typ: seq<byte>, star: bool)
    ensures ReadsType(name, p, dot, typ, star)
  {
    hide IsDelimiter, Token, Plain;
    dot, typ, star := At(name, p) == DOT, [], false;
    if dot {
      typ := Token(name, p + 1);
      TokenIs(name, p + 1, typ);
      star := At(name, p + 1 + |typ|) == STAR;
    }
  }

  lemma SomePassword(name: seq<byte>, p: nat) returns (semi: bool, password: seq<byte>)
    ensures ReadsPassword(name, p, semi, password)
  {
    hide IsDelimiter, Token, Plain;
    semi, password := At(name, p) == SEMI, [];
    if semi {
      password := Token(name, p + 1);
      TokenIs(name, p + 1, password);
    }
  }

  /** The parser reads some parts in every string. */
  lemma SomethingIsRead(name: seq<byte>) returns (f: Spec)
    ensures Reads(name, f)
  {
    hide ReadsName, ReadsType, ReadsPassword;
    var prefixed, prefix, n, star := SomeName(name);
    f := Spec(prefixed, prefix, n, star, false, [], false, false, []);
    var dot, typ, typStar := SomeType(name, PlacesOf(f).typ);
    TypeIsTidy(name, PlacesOf(f).typ, dot, typ, typStar);
    f := f.(dot := dot, typ := typ, typStar := typStar);
    var semi, password := SomePassword(name, PlacesOf(f).password);
    f := f.(semi := semi, password := password);
  }

  lemma TypeIsTidy(name: seq<byte>, p: nat, dot: bool, typ: seq<byte>, star: bool)
    requires ReadsType(name, p, dot, typ, star)
    ensures !dot ==> typ == [] && !star
  {
  }

  lemma PrefixRead(name: seq<byte>, f: Spec)
    requires Reads(name, f)
    ensures var (ok, fcb, tok, p) := Prefix(name);
      && ok == (f.prefixed ==> UserDrive(f.prefix).2)
      && fcb == (if f.prefixed then Blank()[24 := UserDrive(f.prefix).0][0 := UserDrive(f.prefix).1] else Blank())
      && (ok ==> tok == f.name && p == PlacesOf(f).star)
  {
    hide Token, TokenLength, Chars, UserDrive, Blank, IsDelimiter, Plain;
    if f.prefixed {
      TokenIs(name, 0, f.prefix);
      TokenIs(name, |f.prefix| + 1, f.name);
    } else {
      TokenIs(name, 0, f.name);
    }
  }

  /** The rest of the parser, after the prefix. */
  lemma RestRead(name: seq<byte>, f: Spec, fcb: seq<byte>)
    requires Reads(name, f) && |fcb| == 32 && forall i :: 1 <= i < 12 ==> fcb[i] == BLANK
    ensures var s, w := AfterPrefix(fcb, name, PlacesOf(f).star, f.name), PlacesOf(f);
      && s.p == w.end
      && forall i :: 0 <= i < 32 ==>
           s.fcb[i] ==
             (if 1 <= i < 9 then FieldByte(f.name, f.nameStar, i - 1)
              else if 9 <= i < 12 then FieldByte(f.typ, f.typStar, i - 9)
              else if 16 <= i < 24 && i - 16 < |f.password| then FieldByte(f.password, false, i - 16)
              else fcb[i])
  {
    hide Token, TokenLength, Chars, Field, FieldByte, IsDelimiter, At, Put, Fill, Patch, Plain, TokenAt;
    var w := PlacesOf(f);
    FieldOf(fcb, name, w.star, f.name, f.nameStar, 1, 8);
    var s1 := Field(Stage(fcb, w.star), name, f.name, 1, 8);
    var s2 := TypePart(s1, name);
    TypeRead(name, f, s1);
    PasswordRead(name, f, s2);
  }

  lemma TypeRead(name: seq<byte>, f: Spec, s: Stage)
    requires Reads(name, f) && |s.fcb| == 32 && s.p == PlacesOf(f).typ
    requires forall i :: 9 <= i < 12 ==> s.fcb[i] == BLANK
    ensures var r := TypePart(s, name);
      && r.p == PlacesOf(f).password
      && forall i :: 0 <= i < 32 ==>
           r.fcb[i] == if 9 <= i < 12 then FieldByte(f.typ, f.typStar, i - 9) else s.fcb[i]
  {
    hide Token, TokenLength, Chars, Field, IsDelimiter, At, Put, Fill, Patch, Plain;
    var w := PlacesOf(f);
    if f.dot {
      TokenIs(name, w.typ + 1, f.typ);
      FieldOf(s.fcb, name, w.typStar, f.typ, f.typStar, 9, 3);
    }
  }

  lemma PasswordRead(name: seq<byte>, f: Spec, s: Stage)
    requires Reads(name, f) && |s.fcb| == 32 && s.p == PlacesOf(f).password
    ensures var r := PasswordPart(s, name);
      && r.p == PlacesOf(f).end
      && forall i :: 0 <= i < 32 ==>
           r.fcb[i] ==
             if 16 <= i < 24 && i - 16 < |f.password| then FieldByte(f.password, false, i - 16) else s.fcb[i]
  {
    hide Token, TokenLength, Chars, Field, IsDelimiter, At, Plain;
    if f.semi {
      TokenIs(name, PlacesOf(f).password + 1, f.password);
    }
  }

  /** What the parser answers, in terms of what it reads. */
  lemma ReadIsParsed(name: seq<byte>, f: Spec)
    requires Reads(name, f)
    ensures Parse(name).0 <==> (f.prefixed ==> UserDrive(f.prefix).2) && Ends(At(name, PlacesOf(f).end))
    ensures (f.prefixed ==> UserDrive(f.prefix).2) ==> Parse(name).1 == FcbOf(f)
  {
    hide Prefix, AfterPrefix, FieldByte, Reads, UserDrive, PlacesOf, At, Ends;
    PrefixRead(name, f);
    BlankIs();
    var fcb := if f.prefixed then Blank()[24 := UserDrive(f.prefix).0][0 := UserDrive(f.prefix).1] else Blank();
    RestRead(name, f, fcb);
    if f.prefixed ==> UserDrive(f.prefix).2 {
      FcbIs(f, fcb, AfterPrefix(fcb, name, PlacesOf(f).star, f.name).fcb);
    }
  }

  lemma BlankIs()
    ensures var b := Blank();
      && (forall i :: 1 <= i < 12 ==> b[i] == BLANK)
      && forall i :: 0 <= i < 32 && !(1 <= i < 12) ==> b[i] == 0
  {
  }

  lemma FcbIs(f: Spec, start: seq<byte>, fcb: seq<byte>)
    requires |start| == |fcb| == 32
    requires forall i :: 0 <= i < 32 && !(1 <= i < 12) ==>
      start[i] ==
        (if !f.prefixed then 0
         else if i == 24 then UserDrive(f.prefix).0 else if i == 0 then UserDrive(f.prefix).1 else 0)
    requires forall i :: 0 <= i < 32 ==>
      fcb[i] ==
        (if 1 <= i < 9 then FieldByte(f.name, f.nameStar, i - 1)
         else if 9 <= i < 12 then FieldByte(f.typ, f.typStar, i - 9)
         else if 16 <= i < 24 && i - 16 < |f.password| then FieldByte(f.password, false, i - 16)
         else start[i])
    ensures fcb == FcbOf(f)
  {
    hide FieldByte, UserDrive;
  }

  /** `t` is at `p`. */
  predicate HasAt(name: seq<byte>, p: nat, t: seq<byte>) {
    p + |t| <= |name| && name[p..p + |t|] == t
  }

  lemma HasBoth(name: seq<byte>, p: nat, s: seq<byte>, t: seq<byte>)
    ensures HasAt(name, p, s + t) <==> HasAt(name, p, s) && HasAt(name, p + |s|, t)
  {
    if HasAt(name, p, s + t) {
      assert name[p..p + |s|] == name[p..p + |s + t|][..|s|] == s;
      assert name[p + |s|..p + |s| + |t|] == name[p..p + |s + t|][|s|..] == t;
    }
    if HasAt(name, p, s) && HasAt(name, p + |s|, t) {
      assert name[p..p + |s + t|] == name[p..p + |s|] + name[p + |s|..p + |s| + |t|];
    }
  }

  lemma HasOne(name: seq<byte>, p: nat, c: byte)
    requires c != 0
    ensures HasAt(name, p, [c]) <==> At(name, p) == c
    ensures HasAt(name, p, []) <==> p <= |name|
  {
    if p < |name| {
      assert name[p..p + 1] == [name[p]];
    }
  }

  lemma HasStart(name: seq<byte>, t: seq<byte>)
    ensures HasAt(name, 0, t) <==> t <= name
  {
  }

  function Sign(there: bool, c: byte, t: seq<byte>): seq<byte> {
    if there then [c] + t else []
  }

  lemma SixParts(name: seq<byte>, a: seq<byte>, b: seq<byte>, c: seq<byte>, d: seq<byte>, e: seq<byte>, g: seq<byte>)
    ensures a + (b + (c + (d + (e + g)))) <= name <==>
      var i := |a| + |b|;
      && HasAt(name, 0, a) && HasAt(name, |a|, b) && HasAt(name, i, c) && HasAt(name, i + |c|, d)
      && HasAt(name, i + |c| + |d|, e) && HasAt(name, i + |c| + |d| + |e|, g)
  {
    hide HasAt;
    HasStart(name, a + (b + (c + (d + (e + g)))));
    HasBoth(name, 0, a, b + (c + (d + (e + g))));
    HasBoth(name, |a|, b, c + (d + (e + g)));
    HasBoth(name, |a| + |b|, c, d + (e + g));
    HasBoth(name, |a| + |b| + |c|, d, e + g);
    HasBoth(name, |a| + |b| + |c| + |d|, e, g);
  }

  /** The parts of a written name one after the other. */
  lemma WrittenInParts(name: seq<byte>, f: Spec)
    requires Tidy(f)
    ensures var w := PlacesOf(f);
      && w.end == |Written(f)|
      && (Written(f) <= name <==>
            && HasAt(name, 0, if f.prefixed then f.prefix + [COLON] else []) && HasAt(name, w.name, f.name)
            && HasAt(name, w.star, Sign(f.nameStar, STAR, [])) && HasAt(name, w.typ, Sign(f.dot, DOT, f.typ))
            && HasAt(name, w.typStar, Sign(f.typStar, STAR, []))
            && HasAt(name, w.password, Sign(f.semi, SEMI, f.password)))
  {
    hide *;
    var w, prefix := PlacesOf(f), if f.prefixed then f.prefix + [COLON] else [];
    var star, typ, typStar := Sign(f.nameStar, STAR, []), Sign(f.dot, DOT, f.typ), Sign(f.typStar, STAR, []);
    var password := Sign(f.semi, SEMI, f.password);
    WrittenIs(f);
    SixParts(name, prefix, f.name, star, typ, typStar, password);
    var all := prefix + (f.name + (star + (typ + (typStar + password))));
    assert |all| == w.end;
    assert all <= name <==> Written(f) <= name;
  }

  lemma WrittenIs(f: Spec)
    requires Tidy(f)
    ensures var w, prefix := PlacesOf(f), if f.prefixed then f.prefix + [COLON] else [];
      var star, typ, typStar := Sign(f.nameStar, STAR, []), Sign(f.dot, DOT, f.typ), Sign(f.typStar, STAR, []);
      var password := Sign(f.semi, SEMI, f.password);
      && Written(f) == prefix + (f.name + (star + (typ + (typStar + password))))
      && |prefix| == w.name && w.star == |prefix| + |f.name| && w.typ == w.star + |star|
      && w.typStar == w.typ + |typ| && w.password == w.typStar + |typStar| && w.end == w.password + |password|
  {
    assert [42] + [] == [42];
  }

  lemma HasSign(name: seq<byte>, p: nat, there: bool, c: byte, t: seq<byte>)
    requires c != 0
    ensures HasAt(name, p, Sign(there, c, t)) <==>
      if there then At(name, p) == c && HasAt(name, p + 1, t) else p <= |name|
  {
    hide HasAt, At;
    HasOne(name, p, c);
    HasBoth(name, p, [c], t);
  }

  /** A string that starts with a written name has its parts in their places. */
  lemma WrittenIsThere(name: seq<byte>, f: Spec)
    requires Tidy(f)
    ensures var w := PlacesOf(f);
      && w.end == |Written(f)|
      && (Written(f) <= name <==>
            && (f.prefixed ==> HasAt(name, 0, f.prefix) && At(name, |f.prefix|) == COLON)
            && HasAt(name, w.name, f.name)
            && (f.nameStar ==> At(name, w.star) == STAR)
            && (f.dot ==> At(name, w.typ) == DOT && HasAt(name, w.typ + 1, f.typ))
            && (f.typStar ==> At(name, w.typStar) == STAR)
            && (f.semi ==> At(name, w.password) == SEMI && HasAt(name, w.password + 1, f.password)))
  {
    hide HasAt, At, Sign, Written;
    var w := PlacesOf(f);
    WrittenInParts(name, f);
    HasBoth(name, 0, f.prefix, [COLON]);
    HasOne(name, |f.prefix|, COLON);
    HasOne(name, 0, COLON);
    HasSign(name, w.star, f.nameStar, STAR, []);
    HasSign(name, w.typ, f.dot, DOT, f.typ);
    HasSign(name, w.typStar, f.typStar, STAR, []);
    HasSign(name, w.password, f.semi, SEMI, f.password);
    HasOne(name, w.star + 1, COLON);
    HasOne(name, w.typStar + 1, COLON);
    EndIn(name, w.name, f.name);
    EndIn(name, w.typ + 1, f.typ);
    AtEnd(name, w.star);
    AtEnd(name, w.typStar);
  }

  lemma EndIn(name: seq<byte>, p: nat, t: seq<byte>)
    ensures HasAt(name, p, t) ==> p + |t| <= |name|
  {
  }

  lemma AtEnd(name: seq<byte>, p: nat)
    ensures At(name, p) != 0 ==> p + 1 <= |name|
  {
  }

  /** Reading a string that ends after the parts is finding them written there. */
  lemma ReadIsWritten(name: seq<byte>, f: Spec)
    requires Ends(At(name, PlacesOf(f).end))
    ensures Reads(name, f) <==> Writable(f) && Written(f) <= name
  {
    hide ReadsName, ReadsType, ReadsPassword, Written, Plain, At, Ends, TokenAt;
    NameWritten(name, f);
    TypeWritten(name, f);
    PasswordWritten(name, f);
    if Tidy(f) {
      WrittenIsThere(name, f);
    }
  }

  lemma PasswordWritten(name: seq<byte>, f: Spec)
    requires Ends(At(name, PlacesOf(f).end))
    ensures ReadsPassword(name, PlacesOf(f).password, f.semi, f.password) <==>
      && (!f.semi ==> f.password == []) && Plain(f.password)
      && (f.semi ==> At(name, PlacesOf(f).password) == SEMI && HasAt(name, PlacesOf(f).password + 1, f.password))
  {
    hide IsDelimiter, PlainByte, At;
    Delimiters();
  }

  lemma TypeWritten(name: seq<byte>, f: Spec)
    requires Ends(At(name, PlacesOf(f).end))
    ensures (f.semi ==> At(name, PlacesOf(f).password) == SEMI) ==>
      (ReadsType(name, PlacesOf(f).typ, f.dot, f.typ, f.typStar) <==>
      && (!f.dot ==> f.typ == [] && !f.typStar) && Plain(f.typ) && (f.semi && f.dot && !f.typStar ==> |f.typ| == 32)
      && (f.dot ==> At(name, PlacesOf(f).typ) == DOT && HasAt(name, PlacesOf(f).typ + 1, f.typ))
      && (f.typStar ==> At(name, PlacesOf(f).typStar) == STAR))
  {
    hide IsDelimiter, PlainByte, At;
    Delimiters();
  }

  lemma NameWritten(name: seq<byte>, f: Spec)
    requires Ends(At(name, PlacesOf(f).end))
    ensures var w := PlacesOf(f);
      (f.semi ==> At(name, w.password) == SEMI) &&
      (if f.dot then At(name, w.typ) == DOT else f.typ == [] && !f.typStar) ==>
      (ReadsName(name, f.prefixed, f.prefix, f.name, f.nameStar) <==>
        && (!f.prefixed ==> f.prefix == []) && Plain(f.prefix) && Plain(f.name)
        && (f.semi && !f.nameStar && !f.dot ==> |f.name| == 32)
        && (f.prefixed ==> HasAt(name, 0, f.prefix) && At(name, |f.prefix|) == COLON)
        && HasAt(name, w.name, f.name) && (f.nameStar ==> At(name, w.star) == STAR))
  {
    hide IsDelimiter, PlainByte, At;
    Delimiters();
  }

  lemma Delimiters()
    ensures IsDelimiter(STAR) && IsDelimiter(DOT) && IsDelimiter(COLON) && !IsDelimiter(SEMI)
    ensures forall c :: Ends(c) ==> c == 0 || IsDelimiter(c)
  {
  }

  lemma HeldEnds(name: seq<byte>, f: Spec)
    requires Tidy(f) && Written(f) <= name
    ensures Holds(name, f) <==> Ends(At(name, PlacesOf(f).end))
  {
    WrittenIs(f);
  }

  /** A name that is written in a string gives its block: case does not matter, characters
      past a field do not, and a star fills up with question marks. It is refused only for
      its prefix. */
  lemma WrittenIsParsed(name: seq<byte>, f: Spec)
    requires Writable(f) && Holds(name, f)
    ensures Parse(name).0 <==> (f.prefixed ==> UserDrive(f.prefix).2)
    ensures Parse(name).0 ==> Parse(name).1 == FcbOf(f)
  {
    hide Reads, Written, UserDrive, Parse, FcbOf, PlacesOf, At, Ends, Plain;
    HeldEnds(name, f);
    ReadIsWritten(name, f);
    ReadIsParsed(name, f);
  }

  /** Every other string is refused: one with another character that ends a token, with a
      second colon, dot or star, or with a password after a short name. */
  lemma OthersAreRefused(name: seq<byte>) returns (f: Spec)
    requires Parse(name).0
    ensures Writable(f) && Holds(name, f) && (f.prefixed ==> UserDrive(f.prefix).2) && Parse(name).1 == FcbOf(f)
  {
    f := SomethingIsRead(name);
    hide Reads, Written, UserDrive, Parse, FcbOf, PlacesOf, At, Ends, Plain;
    ReadIsParsed(name, f);
    ReadIsWritten(name, f);
    HeldEnds(name, f);
  }

  /** The names that the parser takes. */
  lemma AcceptedNames(name: seq<byte>)
    ensures Parse(name).0 <==>
      exists f :: Writable(f) && Holds(name, f) && (f.prefixed ==> UserDrive(f.prefix).2)
  {
    hide Writable, Holds, UserDrive, Parse;
    if Parse(name).0 {
      var f := OthersAreRefused(name);
      assert Writable(f) && Holds(name, f);
    }
    if f :| Writable(f) && Holds(name, f) && (f.prefixed ==> UserDrive(f.prefix).2) {
      WrittenIsParsed(name, f);
    }
  }

  /** The name or its line ends at `n`, and no character before that is one that has no use. */
  predicate CleanUpTo(name: seq<byte>, n: nat) {
    && n <= |name| && (n == |name| || name[n] in [0, 10, 13])
    && forall i :: 0 <= i < n ==> name[i] !in [0, 10, 13, 60, 62, 44, 61, 124, 91, 93]
  }

  /** A name with any of `<>,=|[]` in it is refused: only the colon, the star and the dot
      have a use. */
  lemma RefusedByCharacter(name: seq<byte>)
    ensures Parse(name).0 ==> exists n: nat :: CleanUpTo(name, n)
  {
    hide Parse, UserDrive, FcbOf, Writable, Written, PlainByte;
    if Parse(name).0 {
      var f := OthersAreRefused(name);
      WrittenBytes(f);
      var n := |Written(f)|;
      forall i | 0 <= i < n ensures name[i] !in [0, 10, 13, 60, 62, 44, 61, 124, 91, 93] {
        assert name[i] == Written(f)[i];
      }
      assert CleanUpTo(name, n);
    }
  }

  lemma WrittenBytes(f: Spec)
    requires Writable(f)
    ensures forall c :: c in Written(f) ==> c !in [0, 10, 13, 60, 62, 44, 61, 124, 91, 93]
  {
    hide PlainByte;
    forall c | c in Written(f) ensures c !in [0, 10, 13, 60, 62, 44, 61, 124, 91, 93] {
      assert PlainByte(c) || c == 58 || c == 42 || c == 46 || c == 59;
      NotPlain(c);
    }
  }

  lemma NotPlain(c: byte)
    ensures PlainByte(c) || c == 58 || c == 42 || c == 46 || c == 59 ==>
      c !in [0, 10, 13, 60, 62, 44, 61, 124, 91, 93]
  {
  }
}
