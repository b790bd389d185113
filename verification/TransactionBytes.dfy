/** Which bytes a transaction has: re-serialisation of what was read, and what is signed. */
module TransactionBytes {
  import opened Options
  import opened Bits
  import opened Bytes
  import opened Rlp
  import opened RlpCanonical
  import opened RlpFields
  import opened RlpStream
  import opened Transactions

  // Re-serialisation

  /** A string that was read: its items one by one. */
  ghost predicate ItemsOf(d: ByteString, xs: seq<ByteString>) {
    VeryStrict(d).Ok? && IsList(d) && Payload(d).Ok? && Split(Payload(d).value) == Ok(xs)
  }

  lemma FieldOf(d: ByteString, xs: seq<ByteString>, i: nat)
    requires ItemsOf(d, xs)
    ensures Field(d, i) == Ok(if i < |xs| then xs[i] else [])
    ensures i < |xs| ==> xs[i] != [] && VeryStrict(xs[i]).Ok?
  {
    hide VeryStrict; hide Payload; hide Split; hide Nth;
    NthSplit(Payload(d).value, xs, i);
  }

  /** A field read as an integer is that integer's encoding. */
  lemma IntFieldOf(d: ByteString, xs: seq<ByteString>, i: nat, width: nat, n: nat)
    requires ItemsOf(d, xs) && IntField(d, i, width) == Fine(n)
    ensures i < |xs| && n < Pow256(width) && Fits(IntItem(n)) && Encode(IntItem(n)) == xs[i]
  {
    hide VeryStrict; hide ItemsOf; hide Field; hide Pow256; hide Encode; hide BigEndian;
    FieldOf(d, xs, i);
    if i < |xs| {
      hide ToInt;
      IntPiece(xs[i], width, n);
    }
  }

  lemma DataFieldOf(d: ByteString, xs: seq<ByteString>, data: ByteString)
    requires ItemsOf(d, xs) && DataField(d) == Fine(data)
    ensures 5 < |xs| && Fits(Data(data)) && Encode(Data(data)) == xs[5]
  {
    hide VeryStrict; hide ItemsOf; hide Field; hide Payload;
    FieldOf(d, xs, 5);
    DataPiece(xs[5], data);
  }

  /** The receiver's item: an address, or nothing, written as empty data or as an empty list. */
  lemma ReceiverOf(d: ByteString, xs: seq<ByteString>, kind: Kind, a: ByteString)
    requires ItemsOf(d, xs) && Receiver(d) == Fine((kind, a))
    ensures 3 < |xs| && |a| == 20 && Field(d, 3) == Ok(xs[3])
    ensures kind.MessageCall? ==> Fits(Data(a)) && Encode(Data(a)) == xs[3] && xs[3] != [0xc0]
    ensures !kind.MessageCall? ==> kind.ContractCreation? && a == Zeros(20) && (xs[3] == [0x80] || xs[3] == [0xc0])
  {
    hide VeryStrict; hide ItemsOf; hide Field; hide Payload;
    FieldOf(d, xs, 3);
    var f := xs[3];
    if IsEmpty(f) {
      EmptyIs(f);
    } else {
      DataPiece(f, a);
    }
  }

  lemma EmptyIs(f: ByteString)
    requires IsEmpty(f) && VeryStrict(f).Ok?
    ensures f == [0x80] || f == [0xc0]
  {
    assert f == [f[0]];
  }

  /** What is read of v, r and s packs into the same v again. */
  lemma Repacked(v: nat, r: nat, s: nat, check: bool, t: Transaction)
    requires v < WORD && t.vrs.Some? && Unpack(Signed(v), r, s, check) == Fine((t.chainId, t.vrs.value))
    ensures -HALF_WORD <= t.chainId < HALF_WORD && t.vrs.value.r == r && t.vrs.value.s == s
    ensures VField(t) == v
    ensures if IsZero(t.vrs.value) then t.vrs.value.v == 0 else Packable(t.chainId, t.vrs.value.v)
  {
    var w := Signed(v);
    assert Unsigned(w) == v;
    if !(r == 0 && s == 0) {
      var c := ChainOf(w);
      assert t.vrs.value.v + (c * 2 + 35) == w;
      SignedOf(c * 2 + 35);
      SignedOf(w);
    }
  }

  /** A list is its payload behind its header. */
  lemma ListIs(d: ByteString, xs: seq<ByteString>, items: seq<Item>)
    requires ItemsOf(d, xs) && |items| == |xs|
    requires forall i :: 0 <= i < |xs| ==> Fits(items[i]) && Encode(items[i]) == xs[i]
    ensures Fits(List(items)) && Encode(List(items)) == d
  {
    hide VeryStrict; hide Payload; hide Split; hide Header; hide HeaderSize;
    var p := Unframed(d);
    Rejoined(p, xs, items);
  }

  /** Everything read is in type, and the fields are those of the transaction, but for an empty list as
      receiver. */
  lemma ParsedItems(d: ByteString, check: bool, t: Transaction) returns (xs: seq<ByteString>)
    requires Parse(d, check) == Fine(t)
    ensures ItemsOf(d, xs) && |xs| == 9 && WellTyped(t) && t.vrs.Some? && Restorable(t)
    ensures forall i :: 0 <= i < 9 && i != 3 ==> Fits(Fields(t)[i]) && Encode(Fields(t)[i]) == xs[i]
    ensures Field(d, 3) == Ok(xs[3])
    ensures Fits(Fields(t)[3]) && (Encode(Fields(t)[3]) == xs[3] <==> xs[3] != [0xc0])
  {
    hide VeryStrict; hide Payload; hide Split; hide Field; hide IntField; hide Receiver; hide DataField; hide Unpack;
    hide Encode; hide Pow256; hide BigEndian; hide Signed; hide Unsigned; hide Packable; hide ChainOf;
    xs := Split(Payload(d).value).value;
    Wide();
    var v, r, s := IntField(d, 6, 4).value, IntField(d, 7, 32).value, IntField(d, 8, 32).value;
    IntFieldOf(d, xs, 0, 32, t.nonce);
    IntFieldOf(d, xs, 1, 32, t.gasPrice);
    IntFieldOf(d, xs, 2, 32, t.gas);
    ReceiverOf(d, xs, t.kind, t.receiveAddress);
    IntFieldOf(d, xs, 4, 32, t.value);
    DataFieldOf(d, xs, t.data);
    IntFieldOf(d, xs, 6, 4, v);
    IntFieldOf(d, xs, 7, 32, r);
    IntFieldOf(d, xs, 8, 32, s);
    Repacked(v, r, s, check, t);
    EmptyData();
  }

  lemma EmptyData()
    ensures Fits(Data([])) && Encode(Data([])) == [0x80]
  {
  }

  /** What is read is restorable, and serialises to the bytes it was read from, exactly unless the receiver
      was given as an empty list. */
  lemma Reserialised(d: ByteString, check: bool, t: Transaction)
    requires Parse(d, check) == Fine(t)
    ensures WellTyped(t) && t.vrs.Some? && Restorable(t)
    ensures Field(d, 3) != Ok([0xc0]) ==> Fits(List(Fields(t))) && Encode(List(Fields(t))) == d
    ensures Field(d, 3) == Ok([0xc0]) && Fits(List(Fields(t))) ==> Encode(List(Fields(t))) != d
  {
    hide Parse; hide Field; hide WellTyped; hide Restorable; hide Encode; hide ItemsOf; hide Fields; hide Fits;
    var xs := ParsedItems(d, check, t);
    if xs[3] != [0xc0] {
      ListIs(d, xs, Fields(t));
    } else if Fits(List(Fields(t))) {
      var e := Encode(List(Fields(t)));
      assert e + [] == e;
      FieldReads(Fields(t), [], e, 3);
    }
  }

  /** Items of one byte each. */
  lemma {:induction false} SingleBytes(p: ByteString)
    requires forall j :: 0 <= j < |p| ==> p[j] == 0x80 || p[j] == 0xc0
    ensures Split(p).Ok? && |Split(p).value| == |p|
    ensures forall i :: 0 <= i < |p| ==> Nth(p, i) == Ok([p[i]])
  {
    if p != [] {
      assert SizeAsEncoded(p) == Ok(1) && p[..1] == [p[0]];
      SingleBytes(p[1..]);
      forall i | 0 < i < |p|
        ensures Nth(p, i) == Ok([p[i]])
      {
        assert Nth(p, i) == Nth(p[1..], i - 1);
      }
    }
  }

  const LIST_AS_RECEIVER: ByteString := [0xc9, 0x80, 0x80, 0x80, 0xc0, 0x80, 0x80, 0x80, 0x80, 0x80]

  lemma ShortList(d: ByteString)
    requires |d| == 10 && d[0] == 0xc9
    ensures VeryStrict(d).Ok? && IsList(d) && Payload(d) == Ok(d[1..])
  {
    assert Length(d) == Ok(9) && d[1..10] == d[1..];
  }

  lemma ListAsReceiverFields()
    ensures var d := LIST_AS_RECEIVER;
            && VeryStrict(d).Ok? && IsList(d) && ItemCount(d) == Ok(9)
            && forall i :: 0 <= i < 9 ==> Field(d, i) == Ok(if i == 3 then [0xc0] else [0x80])
  {
    hide VeryStrict; hide Payload; hide Nth; hide Split;
    var d := LIST_AS_RECEIVER;
    var p := d[1..];
    ShortList(d);
    assert forall j :: 0 <= j < 9 ==> p[j] == if j == 3 then 0xc0 else 0x80;
    SingleBytes(p);
    assert forall i :: 0 <= i < 9 ==> Field(d, i) == Nth(p, i);
  }

  lemma EmptyField()
    ensures ToInt([0x80], 4) == Ok(0) && ToInt([0x80], 32) == Ok(0) && ToBytes([0x80]) == Ok([])
  {
    var d: ByteString := [0x80];
    assert Length(d) == Ok(0) && d[1..1] == [];
    assert Payload(d) == Ok([]) && FromBigEndian([]) == 0;
  }

  /** An empty list as receiver is read as none, and written as an empty string. */
  lemma ListAsReceiver()
    ensures var t := Transaction(ContractCreation, 0, 0, 0, Zeros(20), 0, [], Some(Signature(0, 0, 0)), 0);
            && Parse(LIST_AS_RECEIVER, true) == Fine(t)
            && Fits(List(Fields(t))) && Encode(List(Fields(t))) != LIST_AS_RECEIVER
  {
    hide VeryStrict; hide Field; hide ItemCount; hide ToInt; hide ToBytes; hide Encode; hide Fits;
    var d := LIST_AS_RECEIVER;
    var t := Transaction(ContractCreation, 0, 0, 0, Zeros(20), 0, [], Some(Signature(0, 0, 0)), 0);
    ListAsReceiverFields();
    EmptyField();
    assert Parse(d, true) == Fine(t);
    Reserialised(d, true, t);
    hide Parse; hide Pow256;
    FieldsFit(t);
  }

  // What is signed

  lemma SigningFit(t: Transaction)
    requires WellTyped(t) && Short(t)
    ensures Fits(List(SigningFields(t)))
  {
    hide Pow256; hide BigEndian; hide Unsigned;
    Wide();
    IntFits(t.nonce);
    IntFits(t.gasPrice);
    IntFits(t.gas);
    IntFits(t.value);
    IntFits(Unsigned(t.chainId));
    IntFits(0);
    AllSizes(SigningFields(t));
  }

  lemma IntItemInjective(a: nat, b: nat)
    requires IntItem(a) == IntItem(b)
    ensures a == b
  {
    hide BigEndian; hide FromBigEndian;
    FromBigEndianOf(a);
    FromBigEndianOf(b);
  }

  /** The bytes whose hash is signed. */
  function SigningBytes(t: Transaction): ByteString
    requires WellTyped(t) && Short(t)
  {
    SigningFit(t);
    Encode(List(SigningFields(t)))
  }

  function Recipient(t: Transaction): Option<ByteString> {
    if t.kind.MessageCall? then Some(t.receiveAddress) else None
  }

  /** Replay protection: two transactions with the same bytes to sign agree in everything, and in the chain id
      unless neither has one. */
  lemma SigningInjective(t: Transaction, u: Transaction)
    requires WellTyped(t) && Short(t) && WellTyped(u) && Short(u)
    requires SigningBytes(t) == SigningBytes(u)
    ensures t.nonce == u.nonce && t.gasPrice == u.gasPrice && t.gas == u.gas && t.value == u.value && t.data == u.data
    ensures Recipient(t) == Recipient(u)
    ensures t.chainId == u.chainId || (t.chainId <= 0 && u.chainId <= 0)
  {
    hide Encode; hide Pow256; hide Fits; hide IntItem; hide Body; hide Signed3; hide Unsigned; hide Recipient; hide Decode;
    SigningFit(t);
    SigningFit(u);
    var x, y := SigningFields(t), SigningFields(u);
    RoundTrip(List(x));
    RoundTrip(List(y));
    assert x == y;
    assert x[..6] == Body(t) && y[..6] == Body(u);
    BodyInjective(t, u);
    if t.chainId > 0 && u.chainId > 0 {
      assert x[6..] == Signed3(Unsigned(t.chainId), 0, 0) && y[6..] == Signed3(Unsigned(u.chainId), 0, 0);
      ChainInjective(t, u);
    }
  }

  lemma BodyInjective(t: Transaction, u: Transaction)
    requires Body(t) == Body(u) && |t.receiveAddress| == |u.receiveAddress| == 20
    ensures t.nonce == u.nonce && t.gasPrice == u.gasPrice && t.gas == u.gas && t.value == u.value && t.data == u.data
    ensures Recipient(t) == Recipient(u)
  {
    hide IntItem;
    var x, y := Body(t), Body(u);
    assert x[0] == y[0] && x[1] == y[1] && x[2] == y[2] && x[3] == y[3] && x[4] == y[4] && x[5] == y[5];
    IntItemInjective(t.nonce, u.nonce);
    IntItemInjective(t.gasPrice, u.gasPrice);
    IntItemInjective(t.gas, u.gas);
    IntItemInjective(t.value, u.value);
  }

  lemma ChainInjective(t: Transaction, u: Transaction)
    requires 0 < t.chainId < HALF_WORD && 0 < u.chainId < HALF_WORD
    requires Signed3(Unsigned(t.chainId), 0, 0) == Signed3(Unsigned(u.chainId), 0, 0)
    ensures t.chainId == u.chainId
  {
    hide IntItem;
    assert Signed3(Unsigned(t.chainId), 0, 0)[0] == Signed3(Unsigned(u.chainId), 0, 0)[0];
    IntItemInjective(Unsigned(t.chainId), Unsigned(u.chainId));
  }

  // Streaming

  /** `streamRLP`: a null transaction writes nothing; any other is added as one list, except that an unsigned one
      cannot be written with its signature, which is noticed only when six of nine items are out. */
  method StreamRLP(t: Transaction, s: RLPStream, withSignature: bool, forEip155Hash: bool) returns (r: TxResult<()>)
    requires s.Valid() && WellTyped(t) && Room(s.View(), |t.data| + 1000)
    modifies s
    ensures s.Valid()
    ensures r == if !t.kind.Null? && withSignature && t.vrs.None? then Raise(TransactionIsUnsigned) else Fine(())
    ensures t.kind.Null? ==> s.View() == old(s.View())
    ensures r.Raise? ==>
              AllFit(Body(t)) && s.View() == State(old(s.out) + EncodeAll(Body(t)), old(s.stack) + [Frame(3, |old(s.out)|)])
    ensures !t.kind.Null? && r.Fine? ==>
              var xs := Streamed(t, withSignature, forEip155Hash);
              Fits(List(xs)) && Room(old(s.View()), ItemSize(List(xs))) && Ok(s.View()) == AddItem(old(s.View()), Encode(List(xs)))
  {
    hide Encode; hide Pow256; hide BigEndian; hide Fits; hide Note; hide ItemSize; hide Volume; hide Signed; hide Unsigned;
    hide IntItem; hide EncodeAll;
    if t.kind.Null? {
      return Fine(());
    }
    var unsigned := withSignature && t.vrs.None?;
    ghost var whole := if unsigned then t.(vrs := Some(Signature(0, 0, 0))) else t;
    ghost var v, xs := s.View(), Streamed(whole, withSignature, forEip155Hash);
    StreamedVolume(whole, withSignature, forEip155Hash);
    var body := Body(t);
    s.AppendList(if withSignature || forEip155Hash then 9 else 6);
    FilledNone(v, xs);
    for j := 0 to 6
      invariant s.Valid() && Ok(s.View()) == Filled(v, xs, j)
    {
      FilledStep(v, xs, j);
      s.AppendItem(body[j]);
    }
    VolumeFits(List(xs));
    if unsigned {
      assert xs[..6] == body;
      return Raise(TransactionIsUnsigned);
    }
    var rest := Streamed(t, withSignature, forEip155Hash)[6..];
    for j := 0 to |rest|
      invariant s.Valid() && Ok(s.View()) == Filled(v, xs, 6 + j)
    {
      FilledStep(v, xs, 6 + j);
      s.AppendItem(rest[j]);
    }
    r := Fine(());
  }

  lemma StreamedVolume(t: Transaction, withSignature: bool, forEip155Hash: bool)
    requires WellTyped(t) && (withSignature ==> t.vrs.Some?)
    ensures Volume(List(Streamed(t, withSignature, forEip155Hash))) <= |t.data| + 1000
  {
    hide Pow256; hide BigEndian; hide Signed; hide Unsigned;
    Wide();
    var xs := Streamed(t, withSignature, forEip155Hash);
    IntVolume(t.nonce);
    IntVolume(t.gasPrice);
    IntVolume(t.gas);
    IntVolume(t.value);
    IntVolume(0);
    IntVolume(Unsigned(t.chainId));
    if withSignature {
      VFieldNarrow(t);
      IntVolume(VField(t));
      IntVolume(t.vrs.value.r);
      IntVolume(t.vrs.value.s);
    }
    VolumeFrom(xs, 0);
    assert xs[0..] == xs;
  }

  lemma IntVolume(n: nat)
    requires n < Pow256(32)
    ensures Volume(IntItem(n)) <= 41
  {
    BigEndianFits(n, 32);
  }

  lemma {:induction false} VolumeFrom(xs: seq<Item>, i: nat)
    requires 6 <= |xs| && i <= |xs| && forall j :: 0 <= j < |xs| && j != 5 ==> Volume(xs[j]) <= 41
    ensures VolumeAll(xs[i..]) <= 41 * (|xs| - i) + Volume(xs[5])
    ensures i > 5 ==> VolumeAll(xs[i..]) <= 41 * (|xs| - i)
    decreases |xs| - i
  {
    hide Volume;
    if i < |xs| {
      VolumeFrom(xs, i + 1);
      assert xs[i..][1..] == xs[i + 1..];
    }
  }

  // The fields, one by one

  /** Field i of d is the encoding of these bytes. */
  predicate HasField(d: ByteString, i: nat, b: ByteString) {
    |b| < LIMIT && Field(d, i) == Ok(Encode(Data(b)))
  }

  /** The first six fields of every form: nonce, gas price, gas, receiver, value, data. */
  predicate SixFields(d: ByteString, t: Transaction) {
    && HasField(d, 0, BigEndian(t.nonce)) && HasField(d, 1, BigEndian(t.gasPrice)) && HasField(d, 2, BigEndian(t.gas))
    && HasField(d, 3, if t.kind.MessageCall? then t.receiveAddress else [])
    && HasField(d, 4, BigEndian(t.value)) && HasField(d, 5, t.data)
  }

  lemma FieldWritten(xs: seq<Item>, d: ByteString, i: nat, b: ByteString)
    requires Fits(List(xs)) && d == Encode(List(xs)) && i < |xs| && xs[i] == Data(b)
    ensures HasField(d, i, b) && ItemCount(d) == Ok(|xs|)
  {
    hide Encode; hide Field;
    assert d + [] == d;
    FieldReads(xs, [], d, i);
    assert Fits(xs[i]);
  }

  lemma BodyWritten(xs: seq<Item>, d: ByteString, t: Transaction)
    requires Fits(List(xs)) && d == Encode(List(xs)) && |xs| >= 6 && xs[..6] == Body(t)
    ensures SixFields(d, t) && ItemCount(d) == Ok(|xs|)
  {
    hide Encode; hide Fits; hide HasField; hide BigEndian;
    assert forall i :: 0 <= i < 6 ==> xs[i] == xs[..6][i];
    FieldWritten(xs, d, 0, BigEndian(t.nonce));
    FieldWritten(xs, d, 1, BigEndian(t.gasPrice));
    FieldWritten(xs, d, 2, BigEndian(t.gas));
    FieldWritten(xs, d, 3, if t.kind.MessageCall? then t.receiveAddress else []);
    FieldWritten(xs, d, 4, BigEndian(t.value));
    FieldWritten(xs, d, 5, t.data);
  }

  /** A signed transaction has nine: with a zero signature the seventh is the chain id, with any other twice the
      chain id, 35 and the recovery id together, in 32 bits. */
  lemma SignedWritten(t: Transaction)
    requires WellTyped(t) && Short(t) && t.vrs.Some?
    ensures var d, sig := Serialised(t), t.vrs.value;
            var v := if sig.r == 0 && sig.s == 0 then t.chainId else sig.v + t.chainId * 2 + 35;
            && ItemCount(d) == Ok(9) && SixFields(d, t)
            && HasField(d, 6, BigEndian(v % 0x1_0000_0000)) && HasField(d, 7, BigEndian(sig.r)) && HasField(d, 8, BigEndian(sig.s))
  {
    FieldsFit(t);
    var xs, d := Fields(t), Serialised(t);
    VFieldIs(t);
    hide Encode; hide Fits; hide HasField; hide BigEndian; hide VField; hide SixFields; hide Pow256; hide ItemCount; hide Body;
    assert xs[..6] == Body(t);
    BodyWritten(xs, d, t);
    FieldWritten(xs, d, 6, BigEndian(VField(t)));
    FieldWritten(xs, d, 7, BigEndian(t.vrs.value.r));
    FieldWritten(xs, d, 8, BigEndian(t.vrs.value.s));
  }

  lemma VFieldIs(t: Transaction)
    requires t.vrs.Some?
    ensures var sig := t.vrs.value;
            VField(t) == (if sig.r == 0 && sig.s == 0 then t.chainId else sig.v + t.chainId * 2 + 35) % 0x1_0000_0000
  {
    var sig := t.vrs.value;
    if !(sig.r == 0 && sig.s == 0) {
      var x := t.chainId * 2 + 35;
      var k := SignedForm(x);
      var y := sig.v + Signed(x);
      var l := SignedForm(y);
      SameRemainder(sig.v + x, k + l);
      assert Signed(y) == sig.v + x - (k + l) * WORD;
    }
  }

  lemma SameRemainder(x: int, k: int)
    ensures (x - k * WORD) % WORD == x % WORD
    decreases if k < 0 then -k else k
  {
    if k > 0 {
      SameRemainder(x, k - 1);
      var y := x - (k - 1) * WORD;
      assert (y - WORD) % WORD == y % WORD;
    } else if k < 0 {
      SameRemainder(x, k + 1);
      var y := x - (k + 1) * WORD;
      assert (y + WORD) % WORD == y % WORD;
    }
  }

  /** Without a signature: the six, and for the hash of EIP-155 the chain id, a zero and a zero. */
  lemma UnsignedWritten(t: Transaction, forEip155Hash: bool, d: ByteString)
    requires WellTyped(t) && Fits(List(Streamed(t, false, forEip155Hash))) && d == Encode(List(Streamed(t, false, forEip155Hash)))
    ensures SixFields(d, t) && ItemCount(d) == Ok(if forEip155Hash then 9 else 6)
    ensures forEip155Hash ==>
              HasField(d, 6, BigEndian(t.chainId % 0x1_0000_0000)) && HasField(d, 7, []) && HasField(d, 8, [])
  {
    var xs := Streamed(t, false, forEip155Hash);
    assert BigEndian(0) == [];
    hide Encode; hide Fits; hide HasField; hide BigEndian; hide SixFields; hide Pow256; hide ItemCount; hide Body;
    assert xs[..6] == Body(t);
    BodyWritten(xs, d, t);
    if forEip155Hash {
      FieldWritten(xs, d, 6, BigEndian(t.chainId % 0x1_0000_0000));
      FieldWritten(xs, d, 7, []);
      FieldWritten(xs, d, 8, []);
    }
  }

  /** What is signed: the six, and where the chain id is positive that, a zero and a zero. */
  lemma SigningWritten(t: Transaction)
    requires WellTyped(t) && Short(t)
    ensures var d := SigningBytes(t);
            && SixFields(d, t) && ItemCount(d) == Ok(if t.chainId > 0 then 9 else 6)
            && (t.chainId > 0 ==> HasField(d, 6, BigEndian(t.chainId)) && HasField(d, 7, []) && HasField(d, 8, []))
  {
    hide Encode; hide Fits; hide HasField; hide BigEndian; hide SixFields; hide Pow256; hide ItemCount; hide Streamed;
    SigningFit(t);
    UnsignedWritten(t, t.chainId > 0, SigningBytes(t));
    assert t.chainId > 0 ==> t.chainId % 0x1_0000_0000 == t.chainId;
  }

  /** Field i of d is read as this number. */
  predicate ReadsAs(d: ByteString, i: nat, width: nat, n: nat) {
    Field(d, i).Ok? && ToInt(Field(d, i).value, width) == Ok(n)
  }

  /** What is read, field by field. Of v, 27 and 28 stand for no chain id and recovery id 0 or 1, and from 37 on half
      of what exceeds 35 is the chain id, and the remainder the recovery id. */
  lemma ParsedFields(d: ByteString, check: bool, t: Transaction) returns (v: nat)
    requires Parse(d, check) == Fine(t)
    ensures t.vrs.Some? && ReadsAs(d, 0, 32, t.nonce) && ReadsAs(d, 1, 32, t.gasPrice) && ReadsAs(d, 2, 32, t.gas)
    ensures Field(d, 3).Ok? && var f := Field(d, 3).value;
            if f == [] || (f[0] != 0x80 && f[0] != 0xc0) then t.kind.MessageCall? && ToHash(f, 20) == Ok(t.receiveAddress)
            else t.kind.ContractCreation? && t.receiveAddress == seq(20, _ => 0)
    ensures ReadsAs(d, 4, 32, t.value)
    ensures Field(d, 5).Ok? && IsData(Field(d, 5).value) && ToBytes(Field(d, 5).value) == Ok(t.data)
    ensures ReadsAs(d, 6, 4, v) && ReadsAs(d, 7, 32, t.vrs.value.r) && ReadsAs(d, 8, 32, t.vrs.value.s)
    ensures var sig := t.vrs.value;
            if sig.r == 0 && sig.s == 0 then
              sig.v == 0 && t.chainId == if v < 0x8000_0000 then v else v - 0x1_0000_0000
            else if v == 27 || v == 28 then t.chainId == -4 && sig.v == v - 27
            else 37 <= v < 0x8000_0000 && t.chainId == (v - 35) / 2 && sig.v == (v - 35) % 2
  {
    hide Field; hide ToInt; hide ToHash; hide ToBytes; hide VeryStrict; hide ItemCount; hide IsData;
    v := IntField(d, 6, 4).value;
    var r, s := IntField(d, 7, 32).value, IntField(d, 8, 32).value;
    VNarrow(d);
    UnpackedIs(v, r, s, check);
  }

  lemma VNarrow(d: ByteString)
    requires IntField(d, 6, 4).Fine?
    ensures IntField(d, 6, 4).value < 0x1_0000_0000
  {
    hide Field; hide RequireGood; hide IsInt;
    var p := Payload(Field(d, 6).value).value;
    FromBigEndianBound(p, 4);
    Wide();
  }

  lemma {:induction false} FromBigEndianBound(b: ByteString, n: nat)
    requires |b| <= n
    ensures FromBigEndian(b) < Pow256(n)
  {
    if b != [] {
      FromBigEndianBound(b[..|b| - 1], n - 1);
    }
  }

  lemma UnpackedIs(v: nat, r: nat, s: nat, check: bool)
    requires v < 0x1_0000_0000 && Unpack(Signed(v), r, s, check).Fine?
    ensures var (chainId, sig) := Unpack(Signed(v), r, s, check).value;
            && sig.r == r && sig.s == s
            && if r == 0 && s == 0 then sig.v == 0 && chainId == if v < 0x8000_0000 then v else v - 0x1_0000_0000
               else if v == 27 || v == 28 then chainId == -4 && sig.v == v - 27
               else 37 <= v < 0x8000_0000 && chainId == (v - 35) / 2 && sig.v == (v - 35) % 2
  {
    assert Signed(v) == if v < 0x8000_0000 then v else v - 0x1_0000_0000;
  }
}
