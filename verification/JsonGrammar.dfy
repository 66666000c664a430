/**
  The texts `json_loads` accepts and the values they stand for: the grammar of section 2 of RFC 4627
  as syntax trees, with every byte written out. A tree keeps all that the text has, white space and
  the way each character is spelled included, so a text belongs to at most one tree. Three things
  differ from the standard: `\u0000` and numbers without fraction and exponent outside of a 32-bit
  `int` are refused, and a surrogate stands in a pair only.
  */
module JsonGrammar {
  import opened Bytes
  import opened Utf8
  import opened JsonValue

  /** Space, tab, line feed and carriage return. */
  ghost predicate White(w: seq<byte>) {
    forall i :: 0 <= i < |w| ==> w[i] == 0x20 || w[i] == 0x09 || w[i] == 0x0A || w[i] == 0x0D
  }

  // ----- section 2.5, strings

  /** One character of a string, as it is spelled. */
  datatype Char =
    | Unescaped(b: byte)
    | Escape(c: byte)
    | Unicode(d: seq<byte>)
    | Pair(hi: seq<byte>, lo: seq<byte>)

  /** The eight two-character escapes. */
  function EscapedByte(c: byte): Option<byte> {
    match c
    case 0x22 => Some(0x22)
    case 0x5C => Some(0x5C)
    case 0x2F => Some(0x2F)
    case 0x62 => Some(0x08)
    case 0x66 => Some(0x0C)
    case 0x6E => Some(0x0A)
    case 0x72 => Some(0x0D)
    case 0x74 => Some(0x09)
    case _ => None
  }

  predicate HexDigit(c: byte) {
    0x30 <= c <= 0x39 || 0x41 <= c <= 0x46 || 0x61 <= c <= 0x66
  }

  function HexNumber(c: byte): (r: int)
    requires HexDigit(c)
    ensures 0 <= r < 16
  {
    if c <= 0x39 then c as int - 48 else if c <= 0x46 then c as int - 55 else c as int - 87
  }

  predicate FourHex(d: seq<byte>) {
    |d| == 4 && HexDigit(d[0]) && HexDigit(d[1]) && HexDigit(d[2]) && HexDigit(d[3])
  }

  function Number4(d: seq<byte>): (r: int)
    requires FourHex(d)
    ensures 0 <= r < 0x10000
  {
    4096 * HexNumber(d[0]) + 256 * HexNumber(d[1]) + 16 * HexNumber(d[2]) + HexNumber(d[3])
  }

  predicate CharOk(ch: Char) {
    match ch
    case Unescaped(b) => 0x20 <= b <= 0xFE && b != 0x22 && b != 0x5C
    case Escape(c) => EscapedByte(c).Some?
    case Unicode(d) => FourHex(d) && Number4(d) != 0 && !(0xD800 <= Number4(d) <= 0xDFFF)
    case Pair(hi, lo) => FourHex(hi) && FourHex(lo) && 0xD800 <= Number4(hi) <= 0xDBFF && 0xDC00 <= Number4(lo) <= 0xDFFF
  }

  function CharText(ch: Char): seq<byte> {
    match ch
    case Unescaped(b) => [b]
    case Escape(c) => [0x5C, c]
    case Unicode(d) => [0x5C, 0x75] + d
    case Pair(hi, lo) => [0x5C, 0x75] + hi + [0x5C, 0x75] + lo
  }

  /** What a character stands for; code points are encoded in UTF-8. */
  function CharBytes(ch: Char): seq<byte>
    requires CharOk(ch)
  {
    match ch
    case Unescaped(b) => [b]
    case Escape(c) => [EscapedByte(c).value]
    case Unicode(d) => Encode(Number4(d)).value
    case Pair(hi, lo) => Encode(0x10000 + 1024 * (Number4(hi) - 0xD800) + (Number4(lo) - 0xDC00)).value
  }

  predicate CharsOk(cs: seq<Char>) {
    forall i :: 0 <= i < |cs| ==> CharOk(cs[i])
  }

  function CharsText(cs: seq<Char>): seq<byte> {
    if cs == [] then [] else CharText(cs[0]) + CharsText(cs[1..])
  }

  function CharsBytes(cs: seq<Char>): seq<byte>
    requires CharsOk(cs)
  {
    if cs == [] then [] else CharBytes(cs[0]) + CharsBytes(cs[1..])
  }

  // ----- section 2.4, numbers

  predicate Digits(d: seq<byte>) {
    forall i :: 0 <= i < |d| ==> 0x30 <= d[i] <= 0x39
  }

  /** Digits without a leading zero. */
  predicate IntegerDigits(d: seq<byte>) {
    d != [] && Digits(d) && (|d| > 1 ==> d[0] != 0x30)
  }

  function Pow10(n: nat): nat {
    if n == 0 then 1 else 10 * Pow10(n - 1)
  }

  /** Each digit counts according to its place. */
  function Decimal(d: seq<byte>): nat
    requires Digits(d)
  {
    if d == [] then 0 else assert 0x30 <= d[0]; (d[0] as int - 0x30) * Pow10(|d| - 1) + Decimal(d[1..])
  }

  function Signed(minus: bool, d: seq<byte>): int
    requires Digits(d)
  {
    if minus then -(Decimal(d) as int) else Decimal(d)
  }

  function Minus(minus: bool): seq<byte> {
    if minus then [0x2D] else []
  }

  /** Nothing, or a point and digits. */
  predicate FractionOk(f: seq<byte>) {
    f == [] || (f[0] == 0x2E && |f| > 1 && Digits(f[1..]))
  }

  /** Nothing, or `e` or `E`, perhaps a sign, and digits. */
  predicate ExponentOk(e: seq<byte>) {
    || e == []
    || ((e[0] == 0x65 || e[0] == 0x45) && |e| > 1
        && if e[1] == 0x2B || e[1] == 0x2D then |e| > 2 && Digits(e[2..]) else Digits(e[1..]))
  }

  // ----- sections 2.1 to 2.3, values

  datatype Tree =
    | NullTree
    | TrueTree
    | FalseTree
    | IntTree(minus: bool, digits: seq<byte>)
    | RealTree(minus: bool, digits: seq<byte>, fraction: seq<byte>, exponent: seq<byte>)
    | StringTree(chars: seq<Char>)
    | EmptyArray(blank: seq<byte>)
    | ArrayTree(elems: Elems)
    | EmptyObject(blank: seq<byte>)
    | ObjectTree(members: Members)

  /** A value with the white space around it. */
  datatype Item = Item(before: seq<byte>, tree: Tree, after: seq<byte>)

  datatype Elems = LastElem(last: Item) | MoreElems(first: Item, rest: Elems)

  datatype Member = Member(before: seq<byte>, key: seq<Char>, after: seq<byte>, value: Item)

  datatype Members = LastMember(last: Member) | MoreMembers(first: Member, rest: Members)

  predicate IsContainer(t: Tree) {
    t.EmptyArray? || t.ArrayTree? || t.EmptyObject? || t.ObjectTree?
  }

  ghost predicate Ok(t: Tree) {
    match t
    case IntTree(minus, d) => IntegerDigits(d) && -0x8000_0000 <= Signed(minus, d) <= 0x7FFF_FFFF
    case RealTree(_, d, f, e) => IntegerDigits(d) && FractionOk(f) && ExponentOk(e) && (f != [] || e != [])
    case StringTree(cs) => CharsOk(cs)
    case EmptyArray(w) => White(w)
    case ArrayTree(elems) => ElemsOk(elems)
    case EmptyObject(w) => White(w)
    case ObjectTree(members) => MembersOk(members)
    case _ => true
  }

  ghost predicate ItemOk(x: Item) {
    White(x.before) && Ok(x.tree) && White(x.after)
  }

  ghost predicate ElemsOk(es: Elems) {
    match es
    case LastElem(x) => ItemOk(x)
    case MoreElems(x, rest) => ItemOk(x) && ElemsOk(rest)
  }

  ghost predicate MemberOk(m: Member) {
    White(m.before) && CharsOk(m.key) && White(m.after) && ItemOk(m.value)
  }

  ghost predicate MembersOk(ms: Members) {
    match ms
    case LastMember(m) => MemberOk(m)
    case MoreMembers(m, rest) => MemberOk(m) && MembersOk(rest)
  }

  function TreeText(t: Tree): seq<byte> {
    match t
    case NullTree => [0x6E, 0x75, 0x6C, 0x6C]
    case TrueTree => [0x74, 0x72, 0x75, 0x65]
    case FalseTree => [0x66, 0x61, 0x6C, 0x73, 0x65]
    case IntTree(minus, d) => Minus(minus) + d
    case RealTree(minus, d, f, e) => Minus(minus) + d + f + e
    case StringTree(cs) => [0x22] + CharsText(cs) + [0x22]
    case EmptyArray(w) => [0x5B] + w + [0x5D]
    case ArrayTree(elems) => [0x5B] + ElemsText(elems) + [0x5D]
    case EmptyObject(w) => [0x7B] + w + [0x7D]
    case ObjectTree(members) => [0x7B] + MembersText(members) + [0x7D]
  }

  function ItemText(x: Item): seq<byte> {
    x.before + TreeText(x.tree) + x.after
  }

  function ElemsText(es: Elems): seq<byte> {
    match es
    case LastElem(x) => ItemText(x)
    case MoreElems(x, rest) => ItemText(x) + [0x2C] + ElemsText(rest)
  }

  function MemberText(m: Member): seq<byte> {
    m.before + [0x22] + CharsText(m.key) + [0x22] + m.after + [0x3A] + ItemText(m.value)
  }

  function MembersText(ms: Members): seq<byte> {
    match ms
    case LastMember(m) => MemberText(m)
    case MoreMembers(m, rest) => MemberText(m) + [0x2C] + MembersText(rest)
  }

  /** The value of a tree. The members of an object are numbered as they come; a key that comes again keeps its number. */
  ghost function TreeValue(t: Tree): Json
    requires Ok(t)
  {
    match t
    case NullTree => Null
    case TrueTree => True
    case FalseTree => False
    case IntTree(minus, d) => Integer(Signed(minus, d))
    case RealTree(_, _, _, _) => Real(TreeText(t))
    case StringTree(cs) => String(CharsBytes(cs))
    case EmptyArray(_) => Array([])
    case ArrayTree(elems) => Array(ElemsValue(elems))
    case EmptyObject(_) => Object([])
    case ObjectTree(members) => Object(MembersValue(members, [], 0))
  }

  ghost function ItemValue(x: Item): Json
    requires ItemOk(x)
  {
    TreeValue(x.tree)
  }

  ghost function ElemsValue(es: Elems): seq<Json>
    requires ElemsOk(es)
  {
    match es
    case LastElem(x) => [ItemValue(x)]
    case MoreElems(x, rest) => [ItemValue(x)] + ElemsValue(rest)
  }

  /** The members in `done` with `m` set, which has the number `serial`. */
  ghost function WithMember(m: Member, done: seq<Entry<Json>>, serial: nat): seq<Entry<Json>>
    requires MemberOk(m)
  {
    SetMember(done, CharsBytes(m.key), serial, ItemValue(m.value))
  }

  /** The members in `done` and behind them those of `ms`, numbered from `serial` on. */
  ghost function MembersValue(ms: Members, done: seq<Entry<Json>>, serial: nat): seq<Entry<Json>>
    requires MembersOk(ms)
  {
    match ms
    case LastMember(m) => WithMember(m, done, serial)
    case MoreMembers(m, rest) => MembersValue(rest, WithMember(m, done, serial), serial + 1)
  }

  /** A whole text: an array or an object with white space around it. */
  ghost predicate Denotes(s: seq<byte>, v: Json) {
    exists x: Item :: ItemOk(x) && IsContainer(x.tree) && ItemText(x) == s && ItemValue(x) == v
  }
}
