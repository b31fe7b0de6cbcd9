/** Hand-written ABI calldata of the PancakeSwap V2 swaps and of Venus `enterMarkets`,
    against a decoder that follows the Solidity Contract ABI Specification, section
    "Formal Specification of the Encoding": 32-byte words, and for a dynamic
    `address[]` a head word holding the byte offset of its length-prefixed items. */
module AbiCalldata {
  import opened Outcomes
  import opened Numerals
  import opened JsText

  datatype AbiError = NegativeValue

  // ---- words (src/chains/evm/tools/execute.ts, venus-adapter.ts) ----

  function DropHexPrefix(s: string): string {
    if |s| >= 2 && s[..2] == "0x" then s[2..] else s
  }

  function ToAddressWord(address: string): string {
    PadStart(DropHexPrefix(ToLower(address)), 64)
  }

  function ToUint256Word(value: int): Result<string, AbiError> {
    if value < 0 then Err(NegativeValue) else Ok(PadUint256(Print(value, Hex)))
  }

  function PadUint256(hex: string): string {
    PadStart(hex, 64)
  }

  /** `replace("0x", "")` drops the first "0x" wherever it stands. */
  function DropFirst0x(s: string): string {
    if |s| < 2 then s
    else if s[..2] == "0x" then s[2..]
    else [s[0]] + DropFirst0x(s[1..])
  }

  function PadAddress(address: string): string {
    PadStart(DropFirst0x(ToLower(address)), 64)
  }

  /** parseAddressWord: the last 40 characters of a word, as an address. */
  function ParseAddressWord(value: string): string {
    var digits := if |value| >= 2 && value[..2] == "0x" then value[2..] else value;
    "0x" + digits[if |digits| > 40 then |digits| - 40 else 0..]
  }

  function JoinWords(words: seq<string>): string {
    if words == [] then "" else JoinWords(words[..|words| - 1]) + words[|words| - 1]
  }

  function EncodeAddressList(path: seq<string>): string {
    PadUint256(Print(|path|, Hex)) + JoinWords(seq(|path|, i requires 0 <= i < |path| => ToAddressWord(path[i])))
  }

  // ---- builders ----

  const SWAP_EXACT_TOKENS_FOR_TOKENS := "0x38ed1739"
  const SWAP_EXACT_ETH_FOR_TOKENS := "0x7ff36ab5"
  const SWAP_EXACT_TOKENS_FOR_ETH := "0x18cbafe5"
  const ENTER_MARKETS := "0xc2998238"

  datatype Call =
    | TokensForTokens(amountIn: int, amountOutMin: int, path: seq<string>, to: string, deadline: int)
    | EthForTokens(amountOutMin: int, path: seq<string>, to: string, deadline: int)
    | TokensForEth(amountIn: int, amountOutMin: int, path: seq<string>, to: string, deadline: int)
    | EnterMarkets(markets: seq<string>)

  function BuildFiveWordSwap(selector: string, amountIn: int, amountOutMin: int, path: seq<string>, to: string,
                             deadline: int)
    : Result<string, AbiError>
  {
    var a, m, d := ToUint256Word(amountIn), ToUint256Word(amountOutMin), ToUint256Word(deadline);
    if a.Err? || m.Err? || d.Err? then Err(NegativeValue)
    else
      var head := JoinWords([a.value, m.value, PadUint256(Print(0xa0, Hex)), ToAddressWord(to), d.value]);
      Ok(selector + head + EncodeAddressList(path))
  }

  function BuildEthSwap(amountOutMin: int, path: seq<string>, to: string, deadline: int): Result<string, AbiError> {
    var m, d := ToUint256Word(amountOutMin), ToUint256Word(deadline);
    if m.Err? || d.Err? then Err(NegativeValue)
    else
      var head := JoinWords([m.value, PadUint256(Print(0x80, Hex)), ToAddressWord(to), d.value]);
      Ok(SWAP_EXACT_ETH_FOR_TOKENS + head + EncodeAddressList(path))
  }

  function BuildEnterMarkets(markets: seq<string>): string {
    ENTER_MARKETS + PadUint256("20") + PadUint256(Print(|markets|, Hex))
    + JoinWords(seq(|markets|, i requires 0 <= i < |markets| => PadAddress(markets[i])))
  }

  function Build(call: Call): Result<string, AbiError> {
    match call
    case TokensForTokens(a, m, path, to, d) => BuildFiveWordSwap(SWAP_EXACT_TOKENS_FOR_TOKENS, a, m, path, to, d)
    case EthForTokens(m, path, to, d) => BuildEthSwap(m, path, to, d)
    case TokensForEth(a, m, path, to, d) => BuildFiveWordSwap(SWAP_EXACT_TOKENS_FOR_ETH, a, m, path, to, d)
    case EnterMarkets(markets) => Ok(BuildEnterMarkets(markets))
  }

  // ---- the reference decoder ----

  function WordAt(args: string, offset: nat): Option<string> {
    if 2 * offset + 64 <= |args| then Some(args[2 * offset..2 * offset + 64]) else None
  }

  function UintAt(args: string, offset: nat): Option<nat> {
    match WordAt(args, offset)
    case None => None
    case Some(w) => if AllDigits(w, Hex) then Some(Value(w, Hex)) else None
  }

  /** An address fills the low 20 bytes of its word; the high 12 must be zero. */
  function AddressAt(args: string, offset: nat): Option<string> {
    match WordAt(args, offset)
    case None => None
    case Some(w) => if AllDigits(w, Hex) && w[..24] == Zeros(24) then Some("0x" + w[24..]) else None
  }

  function AddressesAt(args: string, offset: nat, n: nat): Option<seq<string>> {
    if n == 0 then Some([])
    else
      var init, last := AddressesAt(args, offset, n - 1), AddressAt(args, offset + 32 * (n - 1));
      if init.Some? && last.Some? then Some(init.value + [last.value]) else None
  }

  /** Follow the offset word in the head to the length word, then read that many items. */
  function AddressArrayAt(args: string, head: nat): Option<seq<string>> {
    var offset := UintAt(args, head);
    if offset.None? then None
    else
      var n := UintAt(args, offset.value);
      if n.None? then None else AddressesAt(args, offset.value + 32, n.value)
  }

  function Decode(data: string): Option<Call> {
    if |data| < 10 then None
    else
      var selector, args := data[..10], data[10..];
      if selector == SWAP_EXACT_TOKENS_FOR_TOKENS || selector == SWAP_EXACT_TOKENS_FOR_ETH then
        var a, m, path, to, d :=
          UintAt(args, 0), UintAt(args, 32), AddressArrayAt(args, 64), AddressAt(args, 96), UintAt(args, 128);
        if a.Some? && m.Some? && path.Some? && to.Some? && d.Some? then
          Some(if selector == SWAP_EXACT_TOKENS_FOR_TOKENS
               then TokensForTokens(a.value, m.value, path.value, to.value, d.value)
               else TokensForEth(a.value, m.value, path.value, to.value, d.value))
        else None
      else if selector == SWAP_EXACT_ETH_FOR_TOKENS then
        var m, path, to, d := UintAt(args, 0), AddressArrayAt(args, 32), AddressAt(args, 64), UintAt(args, 96);
        if m.Some? && path.Some? && to.Some? && d.Some? then
          Some(EthForTokens(m.value, path.value, to.value, d.value))
        else None
      else if selector == ENTER_MARKETS then
        var markets := AddressArrayAt(args, 0);
        if markets.Some? then Some(EnterMarkets(markets.value)) else None
      else None
  }

  // ---- well-formed calls ----

  predicate IsAddress(a: string) {
    |a| == 42 && a[..2] == "0x" && AllDigits(a[2..], Hex)
  }

  ghost predicate IsUint256(v: int) {
    0 <= v < Pow(Hex, 64)
  }

  predicate AreAddresses(list: seq<string>) {
    forall i | 0 <= i < |list| :: IsAddress(list[i])
  }

  ghost predicate WellFormed(call: Call) {
    match call
    case TokensForTokens(a, m, path, to, d) =>
      IsUint256(a) && IsUint256(m) && IsUint256(d) && |path| == 2 && AreAddresses(path) && IsAddress(to)
    case EthForTokens(m, path, to, d) =>
      IsUint256(m) && IsUint256(d) && |path| == 2 && AreAddresses(path) && IsAddress(to)
    case TokensForEth(a, m, path, to, d) =>
      IsUint256(a) && IsUint256(m) && IsUint256(d) && |path| == 2 && AreAddresses(path) && IsAddress(to)
    case EnterMarkets(markets) => IsUint256(|markets|) && AreAddresses(markets)
  }

  function LowerAll(list: seq<string>): seq<string> {
    seq(|list|, i requires 0 <= i < |list| => ToLower(list[i]))
  }

  /** The same call with every address in lower case. */
  function Normalize(call: Call): Call {
    match call
    case TokensForTokens(a, m, path, to, d) => TokensForTokens(a, m, LowerAll(path), ToLower(to), d)
    case EthForTokens(m, path, to, d) => EthForTokens(m, LowerAll(path), ToLower(to), d)
    case TokensForEth(a, m, path, to, d) => TokensForEth(a, m, LowerAll(path), ToLower(to), d)
    case EnterMarkets(markets) => EnterMarkets(LowerAll(markets))
  }

  // ---- words are 64 characters exactly for values of the type ----

  /** A scalar's word reads back as the scalar, and is one word long exactly when
      the scalar fits 256 bits: nothing in the builder checks that. */
  lemma UintWord(v: int)
    requires v >= 0
    ensures ToUint256Word(v).Ok?
    ensures AllDigits(ToUint256Word(v).value, Hex) && Value(ToUint256Word(v).value, Hex) == v
    ensures |ToUint256Word(v).value| >= 64
    ensures |ToUint256Word(v).value| == 64 <==> IsUint256(v)
  {
    PrintValue(v, Hex);
    PrintLength(v, 64, Hex);
    PadStartValue(Print(v, Hex), 64, Hex);
  }

  lemma LowerAddress(a: string)
    requires IsAddress(a)
    ensures |ToLower(a)| == 42 && ToLower(a) == "0x" + ToLower(a)[2..]
    ensures AllDigits(ToLower(a)[2..], Hex)
  {
    var t := ToLower(a);
    assert a[0] == a[..2][0] && a[1] == a[..2][1];
    assert forall i | 0 <= i < 40 :: t[2..][i] == ToLowerChar(a[2..][i]);
  }

  /** Both address encoders give 24 zeros and the 40 digits in lower case. */
  lemma AddressWord(a: string)
    requires IsAddress(a)
    ensures ToAddressWord(a) == PadAddress(a) == Zeros(24) + ToLower(a)[2..]
    ensures |ToAddressWord(a)| == 64 && AllDigits(ToAddressWord(a), Hex)
    ensures ParseAddressWord("0x" + ToAddressWord(a)) == ToLower(a)
  {
    LowerAddress(a);
    PadStartValue(ToLower(a)[2..], 64, Hex);
    var w := ToAddressWord(a);
    assert w == Zeros(24) + ToLower(a)[2..];
    assert ("0x" + w)[2..] == w && w[24..] == ToLower(a)[2..];
  }

  predicate Has0xAt(s: string, i: nat) {
    i + 2 <= |s| && s[i] == '0' && s[i + 1] == 'x'
  }

  /** A prefix is dropped, whatever follows it, and nothing else. */
  lemma PrefixDropped(s: string, rest: string)
    ensures DropHexPrefix("0x" + rest) == rest
    ensures !Has0xAt(s, 0) ==> DropHexPrefix(s) == s
  {
    assert ("0x" + rest)[2..] == rest;
  }

  lemma Has0xShift(s: string, i: nat)
    requires s != ""
    ensures Has0xAt(s[1..], i) <==> Has0xAt(s, i + 1)
  {
  }

  lemma DropStep(s: string)
    ensures Has0xAt(s, 0) ==> DropFirst0x(s) == s[2..]
    ensures !Has0xAt(s, 0) && s != "" ==> DropFirst0x(s) == [s[0]] + DropFirst0x(s[1..])
    ensures DropFirst0x("") == ""
  {
    StartsWith0x(s);
    hide Has0xAt;
  }

  lemma StartsWith0x(s: string)
    ensures |s| >= 2 && s[..2] == "0x" <==> Has0xAt(s, 0)
  {
    if |s| >= 2 {
      assert s[..2][0] == s[0] && s[..2][1] == s[1];
    }
  }

  /** Of several the first is dropped, and a text without any is kept. */
  lemma {:induction false} FirstDropped(u: string, v: string)
    requires forall i | 0 <= i < |u| :: !Has0xAt(u + "0x" + v, i)
    ensures DropFirst0x(u + "0x" + v) == u + v
    decreases |u|
  {
    var t := u + "0x" + v;
    DropStep(t);
    if u == "" {
      assert t == "0x" + v && t[2..] == v && Has0xAt(t, 0);
    } else {
      hide Has0xAt, DropFirst0x;
      assert !Has0xAt(t, 0);
      assert t[1..] == u[1..] + "0x" + v;
      forall i | 0 <= i < |u[1..]| ensures !Has0xAt(u[1..] + "0x" + v, i) {
        Has0xShift(t, i);
      }
      FirstDropped(u[1..], v);
      assert [u[0]] + (u[1..] + v) == u + v;
    }
  }

  lemma {:induction false} NoneDropped(s: string)
    requires forall i | 0 <= i < |s| :: !Has0xAt(s, i)
    ensures DropFirst0x(s) == s
    decreases |s|
  {
    hide Has0xAt, DropFirst0x;
    DropStep(s);
    if s != "" {
      assert !Has0xAt(s, 0);
      forall i | 0 <= i < |s[1..]| ensures !Has0xAt(s[1..], i) {
        Has0xShift(s, i);
      }
      NoneDropped(s[1..]);
    }
  }

  /** The address read from a word, with or without its prefix, is its last 40 characters, or
      all there are. */
  lemma AddressTail(head: string, tail: string)
    requires |tail| == 40 || (|tail| < 40 && head == "")
    ensures ParseAddressWord("0x" + head + tail) == "0x" + tail
    ensures !Has0xAt(head + tail, 0) ==> ParseAddressWord(head + tail) == "0x" + tail
  {
    var t := head + tail;
    StartsWith0x(t);
    assert "0x" + head + tail == "0x" + t && ("0x" + t)[2..] == t && ("0x" + t)[..2] == "0x";
    assert t[|head|..] == tail;
    hide Has0xAt;
  }

  // ---- the layout of joined words ----

  predicate AllWords(ws: seq<string>) {
    forall i | 0 <= i < |ws| :: |ws[i]| == 64
  }

  lemma {:induction false} JoinAppend(a: seq<string>, b: seq<string>)
    ensures JoinWords(a + b) == JoinWords(a) + JoinWords(b)
  {
    if b == [] {
      assert a + b == a;
    } else {
      var b' := b[..|b| - 1];
      JoinAppend(a, b');
      assert (a + b)[..|a + b| - 1] == a + b';
    }
  }

  lemma JoinOne(w: string)
    ensures JoinWords([w]) == w
  {
    assert [w][..0] == [];
  }

  lemma {:induction false} JoinLength(ws: seq<string>)
    requires AllWords(ws)
    ensures |JoinWords(ws)| == 64 * |ws|
  {
    if ws != [] {
      JoinLength(ws[..|ws| - 1]);
    }
  }

  /** The word at byte offset 32 * i is the i-th word. */
  lemma {:induction false} WordOf(ws: seq<string>, i: nat)
    requires AllWords(ws) && i < |ws|
    ensures WordAt(JoinWords(ws), 32 * i) == Some(ws[i])
  {
    JoinLength(ws);
    var init := ws[..|ws| - 1];
    JoinLength(init);
    if i == |ws| - 1 {
      assert JoinWords(ws)[64 * i..64 * i + 64] == ws[i];
    } else {
      WordOf(init, i);
      assert JoinWords(ws)[64 * i..64 * i + 64] == JoinWords(init)[64 * i..64 * i + 64];
    }
  }

  lemma UintOf(ws: seq<string>, i: nat, v: int)
    requires AllWords(ws) && i < |ws| && IsUint256(v) && Ok(ws[i]) == ToUint256Word(v)
    ensures UintAt(JoinWords(ws), 32 * i) == Some(v)
  {
    WordOf(ws, i);
    UintWord(v);
  }

  lemma AddressOf(ws: seq<string>, i: nat, a: string)
    requires AllWords(ws) && i < |ws| && IsAddress(a) && ws[i] == ToAddressWord(a)
    ensures AddressAt(JoinWords(ws), 32 * i) == Some(ToLower(a))
  {
    WordOf(ws, i);
    AddressWord(a);
    LowerAddress(a);
    assert ws[i][..24] == Zeros(24) && ws[i][24..] == ToLower(a)[2..];
  }

  lemma LowerAllSnoc(list: seq<string>, n: nat)
    requires 0 < n <= |list|
    ensures LowerAll(list[..n]) == LowerAll(list[..n - 1]) + [ToLower(list[n - 1])]
  {
    hide ToLower;
  }

  lemma {:induction false} AddressesOf(ws: seq<string>, first: nat, list: seq<string>, n: nat)
    requires AllWords(ws) && n <= |list| && first + |list| <= |ws| && AreAddresses(list)
    requires ws[first..first + |list|] == AddressWords(list)
    ensures AddressesAt(JoinWords(ws), 32 * first, n) == Some(LowerAll(list[..n]))
  {
    hide JoinWords, AddressAt, ToAddressWord, IsAddress, ToLower;
    if n > 0 {
      AddressesOf(ws, first, list, n - 1);
      assert ws[first + (n - 1)] == ws[first..first + |list|][n - 1];
      AddressOf(ws, first + (n - 1), list[n - 1]);
      LowerAllSnoc(list, n);
      assert 32 * first + 32 * (n - 1) == 32 * (first + (n - 1));
    } else {
      assert LowerAll(list[..0]) == [];
    }
  }

  /** A list encoded as length and items at word `at`, reached through the offset word `head`. */
  lemma ArrayOf(ws: seq<string>, head: nat, at: nat, list: seq<string>)
    requires AllWords(ws) && head < |ws| && at + 1 + |list| <= |ws| && AreAddresses(list)
    requires IsUint256(32 * at) && IsUint256(|list|)
    requires Ok(ws[head]) == ToUint256Word(32 * at) && Ok(ws[at]) == ToUint256Word(|list|)
    requires ws[at + 1..at + 1 + |list|] == AddressWords(list)
    ensures AddressArrayAt(JoinWords(ws), 32 * head) == Some(LowerAll(list))
  {
    hide JoinWords, UintAt, AddressesAt, AddressWords, ToUint256Word, IsUint256, AllWords;
    UintOf(ws, head, 32 * at);
    UintOf(ws, at, |list|);
    AddressesOf(ws, at + 1, list, |list|);
    assert list[..|list|] == list;
  }

  function AddressWords(list: seq<string>): (ws: seq<string>)
    ensures |ws| == |list| && forall i | 0 <= i < |list| :: ws[i] == ToAddressWord(list[i])
  {
    seq(|list|, i requires 0 <= i < |list| => ToAddressWord(list[i]))
  }

  lemma AddressWordsAreWords(list: seq<string>)
    requires AreAddresses(list)
    ensures AllWords(AddressWords(list))
  {
    hide ToAddressWord, IsAddress;
    forall i | 0 <= i < |list| ensures |AddressWords(list)[i]| == 64 {
      AddressWord(list[i]);
    }
  }

  lemma LengthWord(n: nat)
    ensures ToUint256Word(n).Ok? && (IsUint256(n) ==> |ToUint256Word(n).value| == 64)
  {
    UintWord(n);
  }

  lemma EncodedList(list: seq<string>)
    ensures ToUint256Word(|list|).Ok?
    ensures EncodeAddressList(list) == ToUint256Word(|list|).value + JoinWords(AddressWords(list))
  {
    hide JoinWords, Print, PadStart, ToAddressWord;
    assert seq(|list|, i requires 0 <= i < |list| => ToAddressWord(list[i])) == AddressWords(list);
  }

  lemma WordsJoin(a: seq<string>, w: string, b: seq<string>)
    requires AllWords(a) && |w| == 64 && AllWords(b)
    ensures AllWords(a + [w] + b)
    ensures JoinWords(a + [w] + b) == JoinWords(a) + w + JoinWords(b)
  {
    hide JoinWords;
    JoinAppend(a + [w], b);
    JoinAppend(a, [w]);
    JoinOne(w);
  }

  lemma SelectorFirst(selector: string, x: string, y: string)
    requires |selector| == 10
    ensures |selector + x + y| >= 10
    ensures (selector + x + y)[..10] == selector && (selector + x + y)[10..] == x + y
  {
  }

  /** Head words followed by an encoded list are one run of words. */
  lemma LayOut(selector: string, head: seq<string>, list: seq<string>) returns (ws: seq<string>)
    requires |selector| == 10 && AllWords(head) && AreAddresses(list) && IsUint256(|list|)
    ensures ws == head + [ToUint256Word(|list|).value] + AddressWords(list) && AllWords(ws)
    ensures (selector + JoinWords(head) + EncodeAddressList(list))[..10] == selector
    ensures (selector + JoinWords(head) + EncodeAddressList(list))[10..] == JoinWords(ws)
  {
    hide *;
    LengthWord(|list|);
    AddressWordsAreWords(list);
    EncodedList(list);
    var n := ToUint256Word(|list|).value;
    ws := head + [n] + AddressWords(list);
    WordsJoin(head, n, AddressWords(list));
    SelectorFirst(selector, JoinWords(head), EncodeAddressList(list));
    assert JoinWords(head) + EncodeAddressList(list) == JoinWords(head) + n + JoinWords(AddressWords(list));
  }

  // ---- decoding undoes building ----

  lemma SmallWords(n: nat)
    requires n <= 0xa0
    ensures IsUint256(n)
  {
    PowMono(Hex, 2, 64);
    assert Pow(Hex, 0) == 1 && Pow(Hex, 1) == 16 && Pow(Hex, 2) == 256;
  }

  lemma FiveWordLayout(selector: string, a: int, m: int, path: seq<string>, to: string, d: int)
    returns (ws: seq<string>)
    requires |selector| == 10 && |path| == 2 && AreAddresses(path) && IsAddress(to)
    requires IsUint256(a) && IsUint256(m) && IsUint256(d)
    ensures var built := BuildFiveWordSwap(selector, a, m, path, to, d);
      built.Ok? && |built.value| >= 10 && built.value[..10] == selector && built.value[10..] == JoinWords(ws)
    ensures |ws| == 8 && AllWords(ws) && ws[6..8] == AddressWords(path) && ws[3] == ToAddressWord(to)
    ensures Ok(ws[0]) == ToUint256Word(a) && Ok(ws[1]) == ToUint256Word(m) && Ok(ws[4]) == ToUint256Word(d)
    ensures Ok(ws[2]) == ToUint256Word(0xa0) && Ok(ws[5]) == ToUint256Word(2)
  {
    hide AddressWords, JoinWords, EncodeAddressList, ToAddressWord, Pow, Print, PadStart, ToLower, Value;
    SmallWords(0xa0); SmallWords(2);
    UintWord(a); UintWord(m); UintWord(d); UintWord(0xa0); UintWord(2);
    hide IsUint256;
    AddressWord(to);
    var head := [ToUint256Word(a).value, ToUint256Word(m).value, ToUint256Word(0xa0).value,
                 ToAddressWord(to), ToUint256Word(d).value];
    ws := LayOut(selector, head, path);
  }

  lemma DecodeFiveWordSwap(selector: string, a: int, m: int, path: seq<string>, to: string, d: int)
    requires |selector| == 10 && |path| == 2 && AreAddresses(path) && IsAddress(to)
    requires IsUint256(a) && IsUint256(m) && IsUint256(d)
    ensures var built := BuildFiveWordSwap(selector, a, m, path, to, d);
      built.Ok? && |built.value| >= 10 && built.value[..10] == selector
      && var args := built.value[10..];
      && UintAt(args, 0) == Some(a) && UintAt(args, 32) == Some(m) && UintAt(args, 128) == Some(d)
      && AddressArrayAt(args, 64) == Some(LowerAll(path)) && AddressAt(args, 96) == Some(ToLower(to))
  {
    hide *;
    var ws := FiveWordLayout(selector, a, m, path, to, d);
    UintOf(ws, 0, a); UintOf(ws, 1, m); UintOf(ws, 4, d);
    AddressOf(ws, 3, to);
    SmallWords(0xa0); SmallWords(2);
    ArrayOf(ws, 2, 5, path);
  }

  lemma EthLayout(m: int, path: seq<string>, to: string, d: int) returns (ws: seq<string>)
    requires IsUint256(m) && IsUint256(d) && |path| == 2 && AreAddresses(path) && IsAddress(to)
    ensures var built := BuildEthSwap(m, path, to, d);
      built.Ok? && |built.value| >= 10 && built.value[..10] == SWAP_EXACT_ETH_FOR_TOKENS
      && built.value[10..] == JoinWords(ws)
    ensures |ws| == 7 && AllWords(ws) && ws[5..7] == AddressWords(path) && ws[2] == ToAddressWord(to)
    ensures Ok(ws[0]) == ToUint256Word(m) && Ok(ws[3]) == ToUint256Word(d)
    ensures Ok(ws[1]) == ToUint256Word(0x80) && Ok(ws[4]) == ToUint256Word(2)
  {
    hide AddressWords, JoinWords, EncodeAddressList, ToAddressWord, Pow, Print, PadStart, ToLower, Value;
    SmallWords(0x80); SmallWords(2);
    UintWord(m); UintWord(d); UintWord(0x80); UintWord(2);
    hide IsUint256;
    AddressWord(to);
    var head := [ToUint256Word(m).value, ToUint256Word(0x80).value, ToAddressWord(to), ToUint256Word(d).value];
    ws := LayOut(SWAP_EXACT_ETH_FOR_TOKENS, head, path);
  }

  lemma DecodeEthSwap(m: int, path: seq<string>, to: string, d: int)
    requires IsUint256(m) && IsUint256(d) && |path| == 2 && AreAddresses(path) && IsAddress(to)
    ensures var built := BuildEthSwap(m, path, to, d);
      built.Ok? && |built.value| >= 10 && built.value[..10] == SWAP_EXACT_ETH_FOR_TOKENS
      && var args := built.value[10..];
      && UintAt(args, 0) == Some(m) && UintAt(args, 96) == Some(d)
      && AddressArrayAt(args, 32) == Some(LowerAll(path)) && AddressAt(args, 64) == Some(ToLower(to))
  {
    hide *;
    var ws := EthLayout(m, path, to, d);
    UintOf(ws, 0, m); UintOf(ws, 3, d);
    AddressOf(ws, 2, to);
    SmallWords(0x80); SmallWords(2);
    ArrayOf(ws, 1, 4, path);
  }

  lemma DecodeEnterMarkets(markets: seq<string>)
    requires IsUint256(|markets|) && AreAddresses(markets)
    ensures var data := BuildEnterMarkets(markets);
      |data| >= 10 && data[..10] == ENTER_MARKETS
      && AddressArrayAt(data[10..], 0) == Some(LowerAll(markets))
  {
    hide AddressArrayAt, JoinWords, ToAddressWord, PadAddress, IsUint256, Pow;
    SmallWords(0x20);
    UintWord(0x20);
    OffsetTwenty();
    var head := [ToUint256Word(0x20).value];
    JoinOne(head[0]);
    var ws := LayOut(ENTER_MARKETS, head, markets);
    forall i | 0 <= i < |markets| ensures PadAddress(markets[i]) == ToAddressWord(markets[i]) {
      AddressWord(markets[i]);
    }
    assert seq(|markets|, i requires 0 <= i < |markets| => PadAddress(markets[i])) == AddressWords(markets);
    assert BuildEnterMarkets(markets) == ENTER_MARKETS + JoinWords(head) + EncodeAddressList(markets);
    assert ws[2..2 + |markets|] == AddressWords(markets);
    ArrayOf(ws, 0, 1, markets);
  }

  lemma OffsetTwenty()
    ensures Print(0x20, Hex) == "20"
  {
    assert Print(2, Hex) == "2";
  }

  /** For scalars below 2^256 and 20-byte addresses, decoding what was built gives
      the same call back, addresses in lower case. */
  lemma DecodeUndoesBuild(call: Call)
    requires WellFormed(call)
    ensures Build(call).Ok? && Decode(Build(call).value) == Some(Normalize(call))
  {
    hide UintAt, AddressArrayAt, AddressAt, BuildFiveWordSwap, BuildEthSwap, BuildEnterMarkets;
    match call
    case TokensForTokens(a, m, path, to, d) => DecodeFiveWordSwap(SWAP_EXACT_TOKENS_FOR_TOKENS, a, m, path, to, d);
    case EthForTokens(m, path, to, d) => DecodeEthSwap(m, path, to, d);
    case TokensForEth(a, m, path, to, d) => DecodeFiveWordSwap(SWAP_EXACT_TOKENS_FOR_ETH, a, m, path, to, d);
    case EnterMarkets(markets) => DecodeEnterMarkets(markets);
  }

  /** Distinct calls have distinct calldata, up to the case of addresses. */
  lemma BuildInjective(x: Call, y: Call)
    requires WellFormed(x) && WellFormed(y) && Build(x) == Build(y)
    ensures Normalize(x) == Normalize(y)
  {
    hide *;
    DecodeUndoesBuild(x);
    DecodeUndoesBuild(y);
  }

  // ---- exactly when the calldata decodes ----

  lemma UintAtBound(args: string, offset: nat)
    ensures UintAt(args, offset).Some? ==> IsUint256(UintAt(args, offset).value)
  {
    hide Value, Pow;
    var w := WordAt(args, offset);
    if w.Some? && AllDigits(w.value, Hex) {
      ValueBound(w.value, Hex);
    }
  }

  lemma {:induction false} AddressesLength(args: string, offset: nat, n: nat)
    ensures AddressesAt(args, offset, n).Some? ==> |AddressesAt(args, offset, n).value| == n
  {
    hide AddressAt;
    if n > 0 {
      AddressesLength(args, offset, n - 1);
    }
  }

  lemma ArrayLengthBound(args: string, head: nat)
    ensures AddressArrayAt(args, head).Some? ==> IsUint256(|AddressArrayAt(args, head).value|)
  {
    var offset := UintAt(args, head);
    if offset.Some? {
      UintAtBound(args, offset.value);
      if UintAt(args, offset.value).Some? {
        AddressesLength(args, offset.value + 32, UintAt(args, offset.value).value);
      }
    }
    hide UintAt, AddressesAt, IsUint256;
  }

  /** Every scalar of the call, and the length of its list, fits a word. */
  ghost predicate ScalarsFit(call: Call) {
    match call
    case TokensForTokens(a, m, _, _, d) => IsUint256(a) && IsUint256(m) && IsUint256(d)
    case EthForTokens(m, _, _, d) => IsUint256(m) && IsUint256(d)
    case TokensForEth(a, m, _, _, d) => IsUint256(a) && IsUint256(m) && IsUint256(d)
    case EnterMarkets(markets) => IsUint256(|markets|)
  }

  /** What the decoder reads from any text at all is in range. */
  lemma DecodedFits(data: string)
    ensures Decode(data).Some? ==> ScalarsFit(Decode(data).value)
  {
    hide UintAt, AddressArrayAt, AddressAt, IsUint256;
    if |data| >= 10 {
      var args := data[10..];
      UintAtBound(args, 0); UintAtBound(args, 32); UintAtBound(args, 96); UintAtBound(args, 128);
      ArrayLengthBound(args, 0);
    }
  }

  /** What the builders' types demand: a path of two, and addresses. */
  predicate TypedCall(call: Call) {
    match call
    case TokensForTokens(_, _, path, to, _) => |path| == 2 && AreAddresses(path) && IsAddress(to)
    case EthForTokens(_, path, to, _) => |path| == 2 && AreAddresses(path) && IsAddress(to)
    case TokensForEth(_, _, path, to, _) => |path| == 2 && AreAddresses(path) && IsAddress(to)
    case EnterMarkets(markets) => AreAddresses(markets)
  }

  lemma WellFormedIs(call: Call)
    requires TypedCall(call)
    ensures WellFormed(call) <==> ScalarsFit(call)
    ensures ScalarsFit(Normalize(call)) <==> ScalarsFit(call)
  {
    hide IsUint256, IsAddress;
  }

  /** The builders' calldata decodes to the call exactly when every scalar is below 2^256:
      a larger one is not refused but breaks the decoding. */
  lemma DecodesExactly(call: Call)
    requires TypedCall(call)
    ensures Build(call).Ok? && Decode(Build(call).value) == Some(Normalize(call)) <==> WellFormed(call)
  {
    hide *;
    WellFormedIs(call);
    if WellFormed(call) {
      DecodeUndoesBuild(call);
    }
    if Build(call).Ok? {
      DecodedFits(Build(call).value);
    }
  }

  lemma ListLength(path: seq<string>)
    requires |path| == 2 && AreAddresses(path)
    ensures |EncodeAddressList(path)| == 192
  {
    hide IsUint256, Pow, ToAddressWord, PadUint256, JoinWords, IsAddress;
    SmallWords(2);
    UintWord(2);
    AddressWord(path[0]);
    AddressWord(path[1]);
    JoinLength(AddressWords(path));
    assert EncodeAddressList(path) == ToUint256Word(2).value + JoinWords(AddressWords(path));
  }

  lemma FiveWordLength(a: int, m: int, path: seq<string>, to: string, d: int)
    requires a >= 0 && m >= 0 && d >= 0
    ensures ToUint256Word(a).Ok? && ToUint256Word(m).Ok? && ToUint256Word(d).Ok? && ToUint256Word(0xa0).Ok?
    ensures var built := BuildFiveWordSwap(SWAP_EXACT_TOKENS_FOR_TOKENS, a, m, path, to, d);
      built.Ok?
      && |built.value| == 10 + |ToUint256Word(a).value| + |ToUint256Word(m).value| + |ToUint256Word(0xa0).value|
                          + |ToAddressWord(to)| + |ToUint256Word(d).value| + |EncodeAddressList(path)|
  {
    hide IsUint256, Pow, ToAddressWord, PadUint256, JoinWords, EncodeAddressList;
    UintWord(a); UintWord(m); UintWord(d); UintWord(0xa0);
    JoinFive(ToUint256Word(a).value, ToUint256Word(m).value, ToUint256Word(0xa0).value, ToAddressWord(to),
             ToUint256Word(d).value);
  }

  /** The swap calldata has its fixed size exactly when every scalar fits 256 bits;
      only a negative scalar is refused. */
  lemma SwapFraming(a: int, m: int, path: seq<string>, to: string, d: int)
    requires |path| == 2 && AreAddresses(path) && IsAddress(to)
    ensures var built := BuildFiveWordSwap(SWAP_EXACT_TOKENS_FOR_TOKENS, a, m, path, to, d);
      && (built.Ok? <==> a >= 0 && m >= 0 && d >= 0)
      && (built.Ok? ==> (|built.value| == 10 + 64 * 8 <==> IsUint256(a) && IsUint256(m) && IsUint256(d)))
  {
    hide IsUint256, Pow, ToAddressWord, PadUint256, JoinWords, EncodeAddressList;
    if a >= 0 && m >= 0 && d >= 0 {
      hide BuildFiveWordSwap, ToUint256Word, IsAddress, AreAddresses;
      FiveWordLength(a, m, path, to, d);
      SmallWords(0xa0);
      UintWord(a); UintWord(m); UintWord(d); UintWord(0xa0);
      AddressWord(to);
      ListLength(path);
    }
  }

  lemma JoinFive(v: string, w: string, x: string, y: string, z: string)
    ensures |JoinWords([v, w, x, y, z])| == |v| + |w| + |x| + |y| + |z|
  {
    JoinAppend([v, w, x, y], [z]); JoinAppend([v, w, x], [y]); JoinAppend([v, w], [x]); JoinAppend([v], [w]);
    assert [v, w, x, y] + [z] == [v, w, x, y, z] && [v, w, x] + [y] == [v, w, x, y];
    assert [v, w] + [x] == [v, w, x] && [v] + [w] == [v, w];
    JoinOne(v); JoinOne(w); JoinOne(x); JoinOne(y); JoinOne(z);
  }

  /** Each call leads with its own function's selector. */
  lemma SelectorLeads(call: Call)
    requires Build(call).Ok?
    ensures |Build(call).value| >= 10
    ensures Build(call).value[..10]
         == match call
            case TokensForTokens(_, _, _, _, _) => "0x38ed1739"
            case EthForTokens(_, _, _, _) => "0x7ff36ab5"
            case TokensForEth(_, _, _, _, _) => "0x18cbafe5"
            case EnterMarkets(_) => "0xc2998238"
  {
    hide JoinWords, EncodeAddressList, PadUint256, ToUint256Word, PadAddress;
  }
}
