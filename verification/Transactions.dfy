/** Transactions and their serialisation (`TransactionBase.cpp`), with EIP-155 replay protection. */
module Transactions {
  import opened Options
  import opened Bits
  import opened Bytes
  import opened Rlp
  import opened RlpCanonical
  import opened RlpFields

  const HALF_WORD := 0x8000_0000
  const SECP256K1N := 0xfffffffffffffffffffffffffffffffebaaedce6af48a03bbfd25e8cd0364141

  datatype Kind = Null | ContractCreation | MessageCall

  datatype Signature = Signature(r: nat, s: nat, v: byte)

  datatype Transaction = Transaction(
    kind: Kind, nonce: nat, gasPrice: nat, gas: nat, receiveAddress: ByteString, value: nat,
    data: ByteString, vrs: Option<Signature>, chainId: int)

  datatype TxError = BadEncoding(error: Error) | InvalidTransactionFormat | InvalidSignature | TransactionIsUnsigned

  datatype TxResult<+T> = Fine(value: T) | Raise(error: TxError) {
    predicate IsFailure() {
      Raise?
    }
    function PropagateFailure<U>(): TxResult<U>
      requires Raise?
    {
      Raise(error)
    }
    function Extract(): T
      requires Fine?
    {
      value
    }
  }

  /** Integers of 256 bits, addresses of 20 bytes, a 32-bit chain id. */
  predicate WellTyped(t: Transaction) {
    && t.nonce < Pow256(32) && t.gasPrice < Pow256(32) && t.gas < Pow256(32) && t.value < Pow256(32)
    && |t.receiveAddress| == 20 && -HALF_WORD <= t.chainId < HALF_WORD
    && (t.vrs.Some? ==> t.vrs.value.r < Pow256(32) && t.vrs.value.s < Pow256(32))
  }

  predicate IsZero(s: Signature) {
    s.r == 0 && s.s == 0
  }

  predicate IsValid(s: Signature) {
    s.v <= 1 && 0 < s.r < SECP256K1N && 0 < s.s < SECP256K1N
  }

  /** Within the order of the curve, in decimal. */
  lemma ValidIff(s: Signature)
    ensures IsValid(s) <==>
            && s.v < 2
            && 1 <= s.r <= 115792089237316195423570985008687907852837564279074904382605163141518161494336
            && 1 <= s.s <= 115792089237316195423570985008687907852837564279074904382605163141518161494336
  {
  }

  /** A C `int`: the low 32 bits, taken as signed. */
  function Signed(x: int): (r: int)
    ensures -HALF_WORD <= r < HALF_WORD
  {
    var u := x % WORD;
    if u < HALF_WORD then u else u - WORD
  }

  function Unsigned(x: int): (r: nat)
    ensures r < WORD
  {
    x % WORD
  }

  // Serialisation

  /** The v of a serialised signature: chain id and recovery id together. */
  function VField(t: Transaction): nat
    requires t.vrs.Some?
  {
    if IsZero(t.vrs.value) then Unsigned(t.chainId)
    else Unsigned(Signed(t.vrs.value.v + Signed(t.chainId * 2 + 35)))
  }

  function Body(t: Transaction): (r: seq<Item>)
    ensures |r| == 6
  {
    [IntItem(t.nonce), IntItem(t.gasPrice), IntItem(t.gas),
     if t.kind.MessageCall? then Data(t.receiveAddress) else Data([]),
     IntItem(t.value), Data(t.data)]
  }

  function Signed3(v: nat, r: nat, s: nat): (xs: seq<Item>)
    ensures |xs| == 3
  {
    [IntItem(v), IntItem(r), IntItem(s)]
  }

  /** What `streamRLP` writes with the signature. */
  function Fields(t: Transaction): (r: seq<Item>)
    requires t.vrs.Some?
    ensures |r| == 9
  {
    Body(t) + Signed3(VField(t), t.vrs.value.r, t.vrs.value.s)
  }

  function Streamed(t: Transaction, withSignature: bool, forEip155Hash: bool): (r: seq<Item>)
    requires withSignature ==> t.vrs.Some?
  {
    if withSignature then Fields(t)
    else if forEip155Hash then Body(t) + Signed3(Unsigned(t.chainId), 0, 0)
    else Body(t)
  }

  /** What is signed: without the signature, and from EIP-155 on with the chain id. */
  function SigningFields(t: Transaction): seq<Item> {
    Streamed(t, false, t.chainId > 0)
  }

  // Parsing

  function Lift<T>(r: Result<T>): TxResult<T> {
    match r
    case Ok(x) => Fine(x)
    case Throw(e) => Raise(BadEncoding(e))
  }

  function IntField(d: ByteString, i: nat, width: nat): TxResult<nat> {
    var f :- Lift(Field(d, i));
    Lift(ToInt(f, width))
  }

  /** An empty receiver makes a contract creation. */
  function Receiver(d: ByteString): TxResult<(Kind, ByteString)> {
    var f :- Lift(Field(d, 3));
    if IsEmpty(f) then Fine((ContractCreation, Zeros(20)))
    else
      var a :- Lift(ToHash(f, 20));
      Fine((MessageCall, a))
  }

  function DataField(d: ByteString): TxResult<ByteString> {
    var f :- Lift(Field(d, 5));
    if !IsData(f) then Raise(InvalidTransactionFormat) else Lift(ToBytes(f))
  }

  /** Chain id and signature from the fields v, r and s. */
  function Unpack(v: int, r: nat, s: nat, check: bool): TxResult<(int, Signature)> {
    if r == 0 && s == 0 then Fine((v, Signature(r, s, 0)))
    else if v <= 36 && v != 27 && v != 28 then Raise(InvalidSignature)
    else
      var chainId := ChainOf(v);
      var sig := Signature(r, s, (v - (chainId * 2 + 35)) % 256);
      if check && !IsValid(sig) then Raise(InvalidSignature) else Fine((chainId, sig))
  }

  /** The decoding constructor; `check` asks for the cheap signature check. */
  function Parse(d: ByteString, check: bool): TxResult<Transaction> {
    var _ :- Lift(VeryStrict(d));
    if !IsList(d) then Raise(InvalidTransactionFormat)
    else
      var nonce :- IntField(d, 0, 32);
      var gasPrice :- IntField(d, 1, 32);
      var gas :- IntField(d, 2, 32);
      var receiver :- Receiver(d);
      var value :- IntField(d, 4, 32);
      var data :- DataField(d);
      var v :- IntField(d, 6, 4);
      var r :- IntField(d, 7, 32);
      var s :- IntField(d, 8, 32);
      var sig :- Unpack(Signed(v), r, s, check);
      var count :- Lift(ItemCount(d));
      if count > 9 then Raise(InvalidTransactionFormat)
      else Fine(Transaction(receiver.0, nonce, gasPrice, gas, receiver.1, value, data, Some(sig.1), sig.0))
  }

  // The round trip

  /** Which transactions survive: a creation has no receiver; a zero signature has no recovery id; any other
      has recovery id 0 or 1 and no chain id or a positive one that leaves room for both in an `int`. */
  predicate Restorable(t: Transaction)
    requires t.vrs.Some?
  {
    var sig := t.vrs.value;
    && !t.kind.Null? && (t.kind.ContractCreation? ==> t.receiveAddress == Zeros(20))
    && if IsZero(sig) then sig.v == 0
       else Packable(t.chainId, sig.v)
  }

  lemma SignedOf(x: int)
    requires -HALF_WORD <= x < HALF_WORD
    ensures Signed(Unsigned(x)) == x && Signed(x) == x
  {
  }

  lemma SignedForm(x: int) returns (k: int)
    ensures Signed(x) == x - k * WORD
  {
    k := if x % WORD < HALF_WORD then x / WORD else x / WORD + 1;
  }

  /** Chain id in the v of a serialised signature. */
  function ChainOf(v: int): int {
    if v > 36 then (v - 35) / 2 else -4
  }

  predicate Packable(c: int, v: int) {
    v <= 1 && (c == -4 || (c >= 1 && c * 2 + 35 + v < HALF_WORD))
  }

  lemma PackIff(c: int, v: byte, w: int)
    requires -HALF_WORD <= c < HALF_WORD && w == Signed(v + Signed(c * 2 + 35))
    ensures (w > 36 || w == 27 || w == 28) && ChainOf(w) == c && (w - (ChainOf(w) * 2 + 35)) % 256 == v <==> Packable(c, v)
  {
    var k := SignedForm(c * 2 + 35);
    var l := SignedForm(v + Signed(c * 2 + 35));
    hide Signed;
    var x := v + c * 2 + 35;
    assert w == x - (k + l) * WORD;
    assert -HALF_WORD <= w < HALF_WORD;
    assert Packable(c, v) ==> w == x;
  }

  /** Unpacking the v that was packed gives back chain id and recovery id, exactly for those. */
  lemma UnpackIff(t: Transaction, check: bool)
    requires WellTyped(t) && t.vrs.Some?
    ensures var sig := t.vrs.value;
            Unpack(Signed(VField(t)), sig.r, sig.s, check) == Fine((t.chainId, sig)) <==>
            && (if IsZero(sig) then sig.v == 0 else Packable(t.chainId, sig.v))
            && (check && !IsZero(sig) ==> IsValid(sig))
  {
    hide Pow256; hide Signed; hide Unsigned; hide Packable; hide ChainOf;
    var sig := t.vrs.value;
    if IsZero(sig) {
      SignedOf(t.chainId);
    } else {
      var w := Signed(sig.v + Signed(t.chainId * 2 + 35));
      SignedOf(w);
      PackIff(t.chainId, sig.v, w);
    }
  }

  lemma Wide()
    ensures Pow256(4) == WORD && WORD < Pow256(32)
  {
    assert Pow256(8) == WORD * Pow256(4);
    assert Pow256(12) == WORD * Pow256(8);
    assert Pow256(16) == WORD * Pow256(12);
    assert Pow256(20) == WORD * Pow256(16);
    assert Pow256(24) == WORD * Pow256(20);
    assert Pow256(28) == WORD * Pow256(24);
    assert Pow256(32) == WORD * Pow256(28);
  }

  lemma IntFits(n: nat)
    requires n < Pow256(32)
    ensures Fits(IntItem(n)) && ItemSize(IntItem(n)) <= 33
  {
    BigEndianFits(n, 32);
  }

  /** Short enough to be serialised: all fields but the data take at most 264 bytes. */
  predicate Short(t: Transaction) {
    |t.data| < LIMIT - 310
  }

  lemma FieldsFit(t: Transaction)
    requires WellTyped(t) && Short(t) && t.vrs.Some?
    ensures Fits(List(Fields(t)))
  {
    hide Pow256; hide BigEndian; hide Signed;
    Wide();
    IntFits(t.nonce);
    IntFits(t.gasPrice);
    IntFits(t.gas);
    IntFits(t.value);
    IntFits(VField(t));
    IntFits(t.vrs.value.r);
    IntFits(t.vrs.value.s);
    AllSizes(Fields(t));
  }

  function Serialised(t: Transaction): ByteString
    requires WellTyped(t) && Short(t) && t.vrs.Some?
  {
    FieldsFit(t);
    Encode(List(Fields(t)))
  }

  lemma AllSizes(xs: seq<Item>)
    requires 6 <= |xs| <= 9 && xs[5].Data? && |xs[5].data| < LIMIT - 310 && AllFit(xs)
    requires forall i :: 0 <= i < |xs| && i != 5 ==> ItemSize(xs[i]) <= 33
    ensures Fits(List(xs))
  {
    hide BigEndian;
    LimitFits(|xs[5].data|);
    assert ItemSize(xs[5]) <= |xs[5].data| + 9;
    hide ItemSize; hide Fits; hide ItemsSize;
    SizeFrom(xs, 0);
    assert xs[0..] == xs;
    ListFitsIf(xs);
  }

  lemma ListFitsIf(xs: seq<Item>)
    requires AllFit(xs) && ItemsSize(xs) < LIMIT
    ensures Fits(List(xs))
  {
  }

  lemma {:induction false} SizeFrom(xs: seq<Item>, i: nat)
    requires 6 <= |xs| && i <= |xs| && forall j :: 0 <= j < |xs| && j != 5 ==> ItemSize(xs[j]) <= 33
    ensures ItemsSize(xs[i..]) <= 33 * (|xs| - i) + ItemSize(xs[5])
    ensures i > 5 ==> ItemsSize(xs[i..]) <= 33 * (|xs| - i)
    decreases |xs| - i
  {
    hide ItemSize;
    if i < |xs| {
      SizeFrom(xs, i + 1);
      assert xs[i..][1..] == xs[i + 1..];
    }
  }

  lemma IntFieldRead(xs: seq<Item>, d: ByteString, i: nat, n: nat, width: nat)
    requires Fits(List(xs)) && d == Encode(List(xs)) && i < |xs| && xs[i] == IntItem(n) && n < Pow256(width)
    ensures IntField(d, i, width) == Fine(n)
  {
    hide Encode; hide Field; hide ToInt; hide BigEndian; hide Pow256;
    assert d + [] == d;
    FieldReads(xs, [], d, i);
    assert Fits(xs[i]);
    IntReads(n, width);
  }

  lemma ReceiverRead(xs: seq<Item>, d: ByteString, t: Transaction)
    requires Fits(List(xs)) && d == Encode(List(xs)) && |xs| == 9 && |t.receiveAddress| == 20
    requires xs[3] == if t.kind.MessageCall? then Data(t.receiveAddress) else Data([])
    ensures Receiver(d) == Fine(if t.kind.MessageCall? then (MessageCall, t.receiveAddress) else (ContractCreation, Zeros(20)))
  {
    hide Field; hide ToHash;
    assert d + [] == d;
    FieldReads(xs, [], d, 3);
    var f := Encode(xs[3]);
    if t.kind.MessageCall? {
      assert f[0] == 0x94;
      HashReads(t.receiveAddress);
    } else {
      assert f == [0x80];
    }
  }

  lemma DataRead(xs: seq<Item>, d: ByteString, data: ByteString)
    requires Fits(List(xs)) && d == Encode(List(xs)) && |xs| == 9 && xs[5] == Data(data)
    ensures DataField(d) == Fine(data)
  {
    hide Field; hide Payload; hide Encode;
    assert d + [] == d;
    FieldReads(xs, [], d, 5);
    assert Fits(xs[5]);
    var f := Encode(xs[5]);
    assert f + [] == f;
    ItemReads(xs[5], [], f);
  }

  lemma StrictReads(xs: seq<Item>, d: ByteString)
    requires Fits(List(xs)) && d == Encode(List(xs))
    ensures VeryStrict(d).Ok? && IsList(d) && ItemCount(d) == Ok(|xs|)
  {
    hide Encode; hide ActualSize; hide ItemCount;
    assert d + [] == d;
    ItemReads(List(xs), [], d);
    FieldReads(xs, [], d, 0);
  }

  /** Reading what was written gives the fields as written, with v taken apart. */
  lemma ParseReads(t: Transaction, check: bool)
    requires WellTyped(t) && Short(t) && t.vrs.Some?
    ensures var sig := t.vrs.value;
            Parse(Serialised(t), check) ==
            match Unpack(Signed(VField(t)), sig.r, sig.s, check)
            case Raise(e) => Raise(e)
            case Fine(u) =>
              Fine(t.(kind := if t.kind.MessageCall? then MessageCall else ContractCreation,
                      receiveAddress := if t.kind.MessageCall? then t.receiveAddress else Zeros(20),
                      vrs := Some(u.1), chainId := u.0))
  {
    hide Encode; hide IntField; hide Receiver; hide DataField; hide VeryStrict; hide ItemCount; hide Pow256; hide BigEndian;
    hide Unpack; hide Signed; hide Unsigned; hide Fits;
    Wide();
    FieldsFit(t);
    var xs := Fields(t);
    var d := Encode(List(xs));
    var v := VField(t);
    VFieldNarrow(t);
    StrictReads(xs, d);
    IntFieldRead(xs, d, 0, t.nonce, 32);
    IntFieldRead(xs, d, 1, t.gasPrice, 32);
    IntFieldRead(xs, d, 2, t.gas, 32);
    ReceiverRead(xs, d, t);
    IntFieldRead(xs, d, 4, t.value, 32);
    DataRead(xs, d, t.data);
    IntFieldRead(xs, d, 6, v, 4);
    IntFieldRead(xs, d, 7, t.vrs.value.r, 32);
    IntFieldRead(xs, d, 8, t.vrs.value.s, 32);
  }

  lemma VFieldNarrow(t: Transaction)
    requires t.vrs.Some?
    ensures VField(t) < WORD
  {
  }

  /** Serialised and read back, a signed transaction is itself again exactly when it is restorable, and valid
      if that is asked for. */
  lemma RoundTripIff(t: Transaction, check: bool)
    requires WellTyped(t) && Short(t) && t.vrs.Some? && !t.kind.Null?
    ensures Parse(Serialised(t), check) == Fine(t) <==>
            Restorable(t) && (check && !IsZero(t.vrs.value) ==> IsValid(t.vrs.value))
  {
    hide Encode; hide Pow256; hide VField; hide Unpack; hide Parse; hide Packable; hide Fits; hide Signed;
    ParseReads(t, check);
    UnpackIff(t, check);
  }

  /** A signature without a chain's protection is marked by chain id -4; with chain id 0 it is refused. */
  lemma ChainZeroRefused()
    ensures var t := Transaction(MessageCall, 0, 0, 0, Zeros(20), 0, [], Some(Signature(1, 1, 0)), 0);
            && WellTyped(t) && Short(t) && IsValid(t.vrs.value)
            && Parse(Serialised(t), true) == Raise(InvalidSignature)
            && Parse(Serialised(t.(chainId := -4)), true) == Fine(t.(chainId := -4))
  {
    hide Encode; hide Parse; hide Fits;
    Wide();
    hide Pow256;
    var t := Transaction(MessageCall, 0, 0, 0, Zeros(20), 0, [], Some(Signature(1, 1, 0)), 0);
    ParseReads(t, true);
    RoundTripIff(t.(chainId := -4), true);
  }
}
