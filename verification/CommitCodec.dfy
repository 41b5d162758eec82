/** The commit report codec: `pkg/ccip/codec/commitcodec.go` over the struct layouts of
    `pkg/ccip/bindings/ocr/commitreport.go`. Serialising cells to bytes is a bijection of the
    cell library and is left out: encoding ends, and decoding starts, with a cell. */
module CommitCodec {
  import opened Prelude
  import opened Bits
  import opened Cells
  import opened Fields
  import Chains
  import SnakeBytes
  import SnakeData
  import SnakeRef

  type Workchain = w: int | -128 <= w < 128
  type Bytes32 = b: seq<Byte> | |b| == 32 witness seq(32, _ => 0)

  /* ---------- reports, as the plugin sees them ---------- */

  /** A price is absent where the big integer is nil. */
  datatype TokenPrice = TokenPrice(token: string, price: Option<Uint256>)
  datatype GasPrice = GasPrice(chain: Uint64, price: Option<Uint256>)
  datatype MerkleRoot = MerkleRoot(chain: Uint64, onRamp: seq<Byte>, minSeqNr: Uint64, maxSeqNr: Uint64, root: Bytes32)
  datatype Signature = Signature(r: Bytes32, s: Bytes32)
  datatype Report = Report(
    tokenPrices: seq<TokenPrice>, gasPrices: seq<GasPrice>,
    blessed: seq<MerkleRoot>, unblessed: seq<MerkleRoot>, signatures: seq<Signature>)

  /* ---------- reports, as the cells hold them ---------- */

  datatype Address = Address(workchain: Workchain, account: Bytes32)
  datatype TokenUpdate = TokenUpdate(token: Address, price: Uint256)
  datatype GasUpdate = GasUpdate(chain: Uint64, price: Uint256)

  /** The address library: parsing a text form, and printing the default one. */
  datatype AddressText = AddressText(parse: string -> Result<Address>, format: Address -> string)

  /* ---------- struct layouts ---------- */

  function From32(b: Bytes32): seq<Byte> { b }
  function To32(b: seq<Byte>): Bytes32 { if |b| == 32 then b else seq(32, _ => 0) }
  function B32(): Codec<Bytes32> { As(Bytes(32), From32, To32) }

  lemma {:induction false} B32Field(b: Bytes32)
    ensures Field(B32(), b, 256) && Advances(B32())
  {
    BytesField(32, b);
    AsField(Bytes(32), From32, To32, b, 256);
    AsAdvances(Bytes(32), From32, To32);
  }

  /** A standard address starts with the tag 10 and an absent anycast, 100 in binary. */
  const STD_ADDRESS_TAG: nat := 4

  function AddressTag(): Codec<()> {
    Codec(
      (_: ()) => Ok(Cell(ToBits(STD_ADDRESS_TAG, 3), [])),
      (s: Cell) =>
        var (bits, rest) :- LoadBits(s, 3);
        if FromBits(bits) == STD_ADDRESS_TAG then Ok(((), rest)) else Err)
  }

  /** The workchain is a signed byte. */
  function WorkchainNat(w: Workchain): nat { if w < 0 then w + 256 else w }
  function ToWorkchain(n: nat): Workchain { if n < 128 then n else if n < 256 then n - 256 else 0 }
  function WorkchainByte(): Codec<Workchain> { As(Uint(8), WorkchainNat, ToWorkchain) }

  lemma {:induction false} AddressTagField()
    ensures Field(AddressTag(), (), 3) && Advances(AddressTag())
  {
    assert Pow2(3) == 8;
    FromToBits(STD_ADDRESS_TAG, 3);
    var c := Cell(ToBits(STD_ADDRESS_TAG, 3), []);
    forall tail: Cell ensures AddressTag().load(Append(c, tail)) == Ok(((), tail)) {
      LoadBitsBack(c.bits, tail);
    }
  }

  lemma {:induction false} WorkchainField(w: Workchain)
    ensures Field(WorkchainByte(), w, 8) && Advances(WorkchainByte())
  {
    ByteRange();
    UintField(8, WorkchainNat(w));
    AsField(Uint(8), WorkchainNat, ToWorkchain, w, 8);
    AsAdvances(Uint(8), WorkchainNat, ToWorkchain);
  }

  function AddressParts(a: Address): ((), (Workchain, Bytes32)) { ((), (a.workchain, a.account)) }
  function ToAddress(p: ((), (Workchain, Bytes32))): Address { Address(p.1.0, p.1.1) }
  function AddressBody(): Codec<(Workchain, Bytes32)> { Then(WorkchainByte(), B32()) }
  function StdAddress(): Codec<Address> { As(Then(AddressTag(), AddressBody()), AddressParts, ToAddress) }

  lemma {:induction false} AddressBodyField(w: Workchain, account: Bytes32)
    ensures Field(AddressBody(), (w, account), 264) && Advances(AddressBody())
  {
    WorkchainField(w);
    B32Field(account);
    ThenField(WorkchainByte(), B32(), w, account, 8, 256);
    ThenAdvances(WorkchainByte(), B32());
  }

  lemma {:induction false} StdAddressField(a: Address)
    ensures Field(StdAddress(), a, 267)
  {
    AddressTagField();
    AddressBodyField(a.workchain, a.account);
    StructField(AddressTag(), AddressBody(), AddressParts, ToAddress, a, 3, 264);
  }

  lemma {:induction false} StdAddressAdvances()
    ensures Advances(StdAddress())
  {
    AddressTagField();
    AddressBodyField(0, To32([]));
    StructAdvances(AddressTag(), AddressBody(), AddressParts, ToAddress);
  }

  function TokenParts(u: TokenUpdate): (Address, Uint256) { (u.token, u.price) }
  function ToTokenUpdate(p: (Address, Uint256)): TokenUpdate { TokenUpdate(p.0, p.1) }
  function TokenUpdates(): Codec<TokenUpdate> { As(Then(StdAddress(), U256()), TokenParts, ToTokenUpdate) }

  /** A token price update always takes 523 bits. */
  lemma {:induction false} TokenUpdateField(u: TokenUpdate)
    ensures Field(TokenUpdates(), u, 523)
  {
    StdAddressField(u.token);
    U256Field(u.price);
    StructField(StdAddress(), U256(), TokenParts, ToTokenUpdate, u, 267, 256);
  }

  lemma {:induction false} TokenUpdatesAdvance()
    ensures Advances(TokenUpdates())
  {
    StdAddressAdvances();
    U256Field(0);
    StructAdvances(StdAddress(), U256(), TokenParts, ToTokenUpdate);
  }

  function GasParts(u: GasUpdate): (Uint64, Uint256) { (u.chain, u.price) }
  function ToGasUpdate(p: (Uint64, Uint256)): GasUpdate { GasUpdate(p.0, p.1) }
  function GasUpdates(): Codec<GasUpdate> { As(Then(U64(), U256()), GasParts, ToGasUpdate) }

  /** A gas price update always takes 320 bits. */
  lemma {:induction false} GasUpdateField(u: GasUpdate)
    ensures Field(GasUpdates(), u, 320) && Advances(GasUpdates())
  {
    U64Field(u.chain);
    U256Field(u.price);
    StructField(U64(), U256(), GasParts, ToGasUpdate, u, 64, 256);
    StructAdvances(U64(), U256(), GasParts, ToGasUpdate);
  }

  /** The part of a Merkle root struct that follows the on-ramp address. */
  function RootTail(): Codec<(Uint64, (Uint64, Bytes32))> { Then(U64(), Then(U64(), B32())) }
  function RootParts(m: MerkleRoot): (Uint64, (seq<Byte>, (Uint64, (Uint64, Bytes32)))) {
    (m.chain, (m.onRamp, (m.minSeqNr, (m.maxSeqNr, m.root))))
  }
  function ToRoot(p: (Uint64, (seq<Byte>, (Uint64, (Uint64, Bytes32))))): MerkleRoot {
    MerkleRoot(p.0, p.1.0, p.1.1.0, p.1.1.1.0, p.1.1.1.1)
  }
  function OnRampAndTail(): Codec<(seq<Byte>, (Uint64, (Uint64, Bytes32)))> {
    Then(CrossChainAddress(), RootTail())
  }
  function MerkleRoots(): Codec<MerkleRoot> { As(Then(U64(), OnRampAndTail()), RootParts, ToRoot) }

  lemma {:induction false} RootTailField(lo: Uint64, hi: Uint64, root: Bytes32)
    ensures Field(RootTail(), (lo, (hi, root)), 384) && Advances(RootTail())
  {
    U64Field(lo);
    U64Field(hi);
    B32Field(root);
    ThenField(U64(), B32(), hi, root, 64, 256);
    ThenAdvances(U64(), B32());
    ThenField(U64(), Then(U64(), B32()), lo, (hi, root), 64, 320);
    ThenAdvances(U64(), Then(U64(), B32()));
  }

  lemma {:induction false} MerkleRootsAdvance()
    ensures Advances(MerkleRoots())
  {
    U64Field(0);
    RootTailField(0, 0, To32([]));
    CrossChainAddressAdvances();
    ThenAdvances(CrossChainAddress(), RootTail());
    StructAdvances(U64(), OnRampAndTail(), RootParts, ToRoot);
  }

  lemma {:induction false} OnRampAndTailField(onRamp: seq<Byte>, lo: Uint64, hi: Uint64, root: Bytes32)
    requires 1 <= |onRamp| <= 64
    ensures Field(OnRampAndTail(), (onRamp, (lo, (hi, root))), 392 + 8 * |onRamp|)
  {
    CrossChainAddressField(onRamp);
    RootTailField(lo, hi, root);
    ThenField(CrossChainAddress(), RootTail(), onRamp, (lo, (hi, root)), 8 + 8 * |onRamp|, 384);
  }

  /** A Merkle root takes 456 bits and eight for every byte of its on-ramp address: 968 at most. */
  lemma {:induction false} MerkleRootField(m: MerkleRoot)
    requires 1 <= |m.onRamp| <= 64
    ensures Field(MerkleRoots(), m, 456 + 8 * |m.onRamp|)
  {
    U64Field(m.chain);
    OnRampAndTailField(m.onRamp, m.minSeqNr, m.maxSeqNr, m.root);
    StructField(U64(), OnRampAndTail(), RootParts, ToRoot, m, 64, 392 + 8 * |m.onRamp|);
  }

  /** An on-ramp address of another length is refused. */
  lemma {:induction false} MerkleRootRefused(m: MerkleRoot)
    requires !(1 <= |m.onRamp| <= 64)
    ensures MerkleRoots().toCell(m).Err?
  {
    CrossChainAddressField(m.onRamp);
    assert OnRampAndTail().toCell(RootParts(m).1).Err?;
  }

  /* ---------- which bits are written ---------- */

  /** A signed byte, in two's complement. */
  function WorkchainBits(w: Workchain): (bits: seq<bool>)
    ensures |bits| == 8
  {
    ToBits((w + 256) % 256, 8)
  }

  /** The tag 100, the workchain and the account. */
  function AddressBits(a: Address): (bits: seq<bool>)
    ensures |bits| == 267
  {
    [true, false, false] + (WorkchainBits(a.workchain) + BytesToBits(a.account))
  }

  lemma {:induction false} TagBits()
    ensures ToBits(STD_ADDRESS_TAG, 3) == [true, false, false]
  {
    assert ToBits(1, 1) == ToBits(0, 0) + [true];
    assert ToBits(2, 2) == ToBits(1, 1) + [false];
    assert ToBits(4, 3) == ToBits(2, 2) + [false];
  }

  lemma {:induction false} B32Layout(b: Bytes32)
    ensures B32().toCell(b) == Ok(Cell(BytesToBits(b), []))
  {
    assert Bytes(32).toCell(From32(b)) == Ok(Cell(BytesToBits(b), []));
  }

  lemma {:induction false} WorkchainLayout(w: Workchain)
    ensures WorkchainByte().toCell(w) == Ok(Cell(WorkchainBits(w), []))
  {
    ByteRange();
    assert WorkchainNat(w) == (w + 256) % 256;
    assert Uint(8).toCell(WorkchainNat(w)) == Ok(Cell(ToBits(WorkchainNat(w), 8), []));
  }

  lemma {:induction false} AddressBodyLayout(w: Workchain, account: Bytes32)
    ensures AddressBody().toCell((w, account)) == Ok(Cell(WorkchainBits(w) + BytesToBits(account), []))
  {
    WorkchainLayout(w);
    B32Layout(account);
    ThenLayout(WorkchainByte(), B32(), w, account, WorkchainBits(w), BytesToBits(account));
  }

  lemma {:induction false} AddressTagLayout()
    ensures AddressTag().toCell(()) == Ok(Cell([true, false, false], []))
  {
    TagBits();
  }

  lemma {:induction false} AddressLayout(a: Address)
    ensures StdAddress().toCell(a) == Ok(Cell(AddressBits(a), []))
  {
    AddressTagLayout();
    AddressBodyLayout(a.workchain, a.account);
    StructLayout(AddressTag(), AddressBody(), AddressParts, ToAddress, a, [true, false, false],
                 WorkchainBits(a.workchain) + BytesToBits(a.account));
  }

  /** The address, then the price. */
  lemma {:induction false} TokenUpdateLayout(u: TokenUpdate)
    ensures TokenUpdates().toCell(u) == Ok(Cell(AddressBits(u.token) + ToBits(u.price, 256), []))
  {
    AddressLayout(u.token);
    U256Layout(u.price);
    StructLayout(StdAddress(), U256(), TokenParts, ToTokenUpdate, u, AddressBits(u.token), ToBits(u.price, 256));
  }

  /** The chain selector, then the price. */
  lemma {:induction false} GasUpdateLayout(u: GasUpdate)
    ensures GasUpdates().toCell(u) == Ok(Cell(ToBits(u.chain, 64) + ToBits(u.price, 256), []))
  {
    U64Layout(u.chain);
    U256Layout(u.price);
    StructLayout(U64(), U256(), GasParts, ToGasUpdate, u, ToBits(u.chain, 64), ToBits(u.price, 256));
  }

  /** The lowest and the highest sequence number, then the root. */
  function RootTailBits(m: MerkleRoot): seq<bool> {
    ToBits(m.minSeqNr, 64) + (ToBits(m.maxSeqNr, 64) + BytesToBits(m.root))
  }

  lemma {:induction false} RootTailLayout(m: MerkleRoot)
    ensures RootTail().toCell((m.minSeqNr, (m.maxSeqNr, m.root))) == Ok(Cell(RootTailBits(m), [])) && |RootTailBits(m)| == 384
  {
    U64Layout(m.minSeqNr);
    U64Layout(m.maxSeqNr);
    B32Layout(m.root);
    ThenLayout(U64(), B32(), m.maxSeqNr, m.root, ToBits(m.maxSeqNr, 64), BytesToBits(m.root));
    ThenLayout(U64(), Then(U64(), B32()), m.minSeqNr, (m.maxSeqNr, m.root),
               ToBits(m.minSeqNr, 64), ToBits(m.maxSeqNr, 64) + BytesToBits(m.root));
  }

  /** The chain selector, the on-ramp address with its length, the sequence numbers and the root. */
  lemma {:induction false} MerkleRootLayout(m: MerkleRoot)
    requires 1 <= |m.onRamp| <= 64
    ensures MerkleRoots().toCell(m) ==
            Ok(Cell(ToBits(m.chain, 64) + ((ToBits(|m.onRamp|, 8) + BytesToBits(m.onRamp)) + RootTailBits(m)), []))
  {
    var onRamp := ToBits(|m.onRamp|, 8) + BytesToBits(m.onRamp);
    U64Layout(m.chain);
    CrossChainAddressField(m.onRamp);
    RootTailLayout(m);
    ThenLayout(CrossChainAddress(), RootTail(), m.onRamp, (m.minSeqNr, (m.maxSeqNr, m.root)), onRamp, RootTailBits(m));
    StructLayout(U64(), OnRampAndTail(), RootParts, ToRoot, m, ToBits(m.chain, 64), onRamp + RootTailBits(m));
  }

  /* ---------- encoding ---------- */

  /** A parseable token address and a price are needed. */
  function TokenEncoder(text: AddressText): TokenPrice -> Result<TokenUpdate> {
    (p: TokenPrice) =>
      var token :- text.parse(p.token);
      if p.price.None? then Err else Ok(TokenUpdate(token, p.price.value))
  }

  function GasEncoder(): GasPrice -> Result<GasUpdate> {
    (p: GasPrice) => if p.price.None? then Err else Ok(GasUpdate(p.chain, p.price.value))
  }

  function SignatureEncoder(): Signature -> Result<seq<Byte>> {
    (s: Signature) => Ok(s.r + s.s)
  }

  /** `SnakeBytes` as the element type of the signature list. */
  function SignatureBytes(): Codec<seq<Byte>> {
    Codec((b: seq<Byte>) => Link(SnakeBytes.Chunks(b)), (s: Cell) => Ok((SnakeBytes.Unload(s), EMPTY)))
  }

  /** The struct that is written to cells, `ocr.CommitReport`. */
  datatype CellReport = CellReport(
    tokens: seq<TokenUpdate>, gas: seq<GasUpdate>, blessed: seq<MerkleRoot>, unblessed: seq<MerkleRoot>,
    signatures: seq<seq<Byte>>)

  function ToCellReport(text: AddressText, report: Report): Result<CellReport> {
    var tokens :- TryMap(TokenEncoder(text), report.tokenPrices);
    var gas :- TryMap(GasEncoder(), report.gasPrices);
    var signatures :- TryMap(SignatureEncoder(), report.signatures);
    Ok(CellReport(tokens, gas, report.blessed, report.unblessed, signatures))
  }

  /** The report cell references price updates, Merkle roots and signatures. */
  function Assembled(t: Cell, g: Cell, b: Cell, u: Cell, s: Cell): Cell {
    Cell([], [Cell([], [t, g]), Cell([], [b, u]), s])
  }

  function ReportCell(r: CellReport): Result<Cell> {
    var t :- SnakeData.PackStatic(TokenUpdates(), r.tokens);
    var g :- SnakeData.PackStatic(GasUpdates(), r.gas);
    var b :- SnakeData.PackStatic(MerkleRoots(), r.blessed);
    var u :- SnakeData.PackStatic(MerkleRoots(), r.unblessed);
    var s :- SnakeRef.PackRefs(SignatureBytes(), r.signatures);
    Ok(Assembled(t, g, b, u, s))
  }

  function EncodeReport(text: AddressText, report: Report): Result<Cell> {
    var r :- ToCellReport(text, report);
    ReportCell(r)
  }

  method Encode(text: AddressText, report: Report) returns (r: Result<Cell>)
    ensures r == EncodeReport(text, report)
  {
    var tokens := MapEach(TokenEncoder(text), report.tokenPrices);
    if tokens.Err? { return Err; }
    var gas := MapEach(GasEncoder(), report.gasPrices);
    if gas.Err? { return Err; }
    var signatures := MapEach(SignatureEncoder(), report.signatures);
    var t := SnakeData.PackArrayWithStaticType(TokenUpdates(), tokens.value);
    if t.Err? { return Err; }
    var g := SnakeData.PackArrayWithStaticType(GasUpdates(), gas.value);
    if g.Err? { return Err; }
    var b := SnakeData.PackArrayWithStaticType(MerkleRoots(), report.blessed);
    if b.Err? { return Err; }
    var u := SnakeData.PackArrayWithStaticType(MerkleRoots(), report.unblessed);
    if u.Err? { return Err; }
    var s := SnakeRef.PackArrayWithRefChaining(SignatureBytes(), signatures.value);
    if s.Err? { return Err; }
    r := Ok(Assembled(t.value, g.value, b.value, u.value, s.value));
  }

  /* ---------- decoding ---------- */

  function UnpackTokens(c: Cell): Result<seq<TokenUpdate>> {
    TokenUpdatesAdvance();
    AdvancesConsumes(TokenUpdates());
    SnakeData.UnpackFrom(TokenUpdates(), c, c)
  }

  function UnpackGas(c: Cell): Result<seq<GasUpdate>> {
    GasUpdateField(GasUpdate(0, 0));
    AdvancesConsumes(GasUpdates());
    SnakeData.UnpackFrom(GasUpdates(), c, c)
  }

  function UnpackRoots(c: Cell): Result<seq<MerkleRoot>> {
    MerkleRootsAdvance();
    AdvancesConsumes(MerkleRoots());
    SnakeData.UnpackFrom(MerkleRoots(), c, c)
  }

  function TokenDecoder(text: AddressText): TokenUpdate -> Result<TokenPrice> {
    (u: TokenUpdate) => Ok(TokenPrice(text.format(u.token), Some(u.price)))
  }

  function GasDecoder(): GasUpdate -> Result<GasPrice> {
    (u: GasUpdate) => Ok(GasPrice(u.chain, Some(u.price)))
  }

  const SIGNATURE_BYTES: nat := 64

  function SignatureDecoder(): seq<Byte> -> Result<Signature> {
    (b: seq<Byte>) => if |b| != SIGNATURE_BYTES then Err else Ok(Signature(b[..32], b[32..]))
  }

  function UnpackSignatures(c: Cell): Result<seq<seq<Byte>>> {
    SnakeRef.UnpackRefs(SignatureBytes(), c)
  }

  /** The order of the references, for any four readers of the lists. */
  function Disassemble(
    tokens: Cell -> Result<seq<TokenUpdate>>, gas: Cell -> Result<seq<GasUpdate>>,
    roots: Cell -> Result<seq<MerkleRoot>>, signatures: Cell -> Result<seq<seq<Byte>>>, c: Cell): Result<CellReport>
  {
    if |c.refs| < 3 || |c.refs[0].refs| < 2 || |c.refs[1].refs| < 2 then Err
    else
      var t :- tokens(c.refs[0].refs[0]);
      var g :- gas(c.refs[0].refs[1]);
      var b :- roots(c.refs[1].refs[0]);
      var u :- roots(c.refs[1].refs[1]);
      var s :- signatures(c.refs[2]);
      Ok(CellReport(t, g, b, u, s))
  }

  function UnpackReport(c: Cell): Result<CellReport> {
    Disassemble(UnpackTokens, UnpackGas, UnpackRoots, UnpackSignatures, c)
  }

  function FromCellReport(text: AddressText, r: CellReport): Result<Report> {
    var tokenPrices :- TryMap(TokenDecoder(text), r.tokens);
    var gasPrices :- TryMap(GasDecoder(), r.gas);
    var signatures :- TryMap(SignatureDecoder(), r.signatures);
    Ok(Report(tokenPrices, gasPrices, r.blessed, r.unblessed, signatures))
  }

  function DecodeReport(text: AddressText, c: Cell): Result<Report> {
    var r :- UnpackReport(c);
    FromCellReport(text, r)
  }

  method Decode(text: AddressText, c: Cell) returns (r: Result<Report>)
    requires Legal(c)
    ensures r == DecodeReport(text, c)
  {
    if |c.refs| < 3 || |c.refs[0].refs| < 2 || |c.refs[1].refs| < 2 { return Err; }
    TokenUpdatesAdvance();
    AdvancesConsumes(TokenUpdates());
    var tokens := SnakeData.UnpackArrayWithStaticType(TokenUpdates(), c.refs[0].refs[0]);
    if tokens.Err? { return Err; }
    GasUpdateField(GasUpdate(0, 0));
    AdvancesConsumes(GasUpdates());
    var gas := SnakeData.UnpackArrayWithStaticType(GasUpdates(), c.refs[0].refs[1]);
    if gas.Err? { return Err; }
    MerkleRootsAdvance();
    AdvancesConsumes(MerkleRoots());
    var blessed := SnakeData.UnpackArrayWithStaticType(MerkleRoots(), c.refs[1].refs[0]);
    if blessed.Err? { return Err; }
    var unblessed := SnakeData.UnpackArrayWithStaticType(MerkleRoots(), c.refs[1].refs[1]);
    if unblessed.Err? { return Err; }
    var packed := SnakeRef.UnpackArrayWithRefChaining(SignatureBytes(), c.refs[2]);
    if packed.Err? { return Err; }
    var tokenPrices := MapEach(TokenDecoder(text), tokens.value);
    if tokenPrices.Err? { return Err; }
    var gasPrices := MapEach(GasDecoder(), gas.value);
    if gasPrices.Err? { return Err; }
    var signatures := MapEach(SignatureDecoder(), packed.value);
    if signatures.Err? { return Err; }
    r := Ok(Report(tokenPrices.value, gasPrices.value, blessed.value, unblessed.value, signatures.value));
  }

  /* ---------- the round trip ---------- */

  ghost predicate TokensEncodable(text: AddressText, prices: seq<TokenPrice>) {
    forall i :: 0 <= i < |prices| ==> text.parse(prices[i].token).Ok? && prices[i].price.Some?
  }

  ghost predicate AddressesFit(roots: seq<MerkleRoot>) {
    forall i :: 0 <= i < |roots| ==> 1 <= |roots[i].onRamp| <= 64
  }

  /** What encoding accepts. */
  ghost predicate Encodable(text: AddressText, report: Report) {
    && TokensEncodable(text, report.tokenPrices)
    && (forall i :: 0 <= i < |report.gasPrices| ==> report.gasPrices[i].price.Some?)
    && AddressesFit(report.blessed)
    && AddressesFit(report.unblessed)
  }

  /** The printed form of the address that a token string denotes. */
  function Canonical(text: AddressText, token: string): string {
    if text.parse(token).Ok? then text.format(text.parse(token).value) else token
  }

  function CanonicalPrices(text: AddressText, prices: seq<TokenPrice>): (r: seq<TokenPrice>)
    ensures |r| == |prices|
    ensures forall i :: 0 <= i < |r| ==> r[i] == prices[i].(token := Canonical(text, prices[i].token))
  {
    if prices == [] then []
    else [prices[0].(token := Canonical(text, prices[0].token))] + CanonicalPrices(text, prices[1..])
  }

  /** The report with every token address in its printed form. */
  function Canonicalised(text: AddressText, report: Report): Report {
    report.(tokenPrices := CanonicalPrices(text, report.tokenPrices))
  }

  ghost predicate IsField<T>(codec: Codec<T>, x: T) {
    SelfDelimiting(codec, x) && codec.toCell(x).value.refs == [] && codec.toCell(x).value.bits != []
  }

  lemma {:induction false} FieldsComeBack<T>(codec: Codec<T>, xs: seq<T>)
    requires Consumes(codec) && forall i :: 0 <= i < |xs| ==> IsField(codec, xs[i])
    ensures SnakeData.PackStatic(codec, xs).Ok? && Legal(SnakeData.PackStatic(codec, xs).value)
    ensures var c := SnakeData.PackStatic(codec, xs).value; SnakeData.UnpackFrom(codec, c, c) == Ok(xs)
  {
    forall i | 0 <= i < |xs| ensures SnakeData.Packable(codec, xs[i]) && Chains.HasBits(codec, xs[i]) {
      assert IsField(codec, xs[i]);
    }
    SnakeData.RoundTrip(codec, xs);
  }

  lemma {:induction false} TokensComeBack(xs: seq<TokenUpdate>)
    ensures var c := SnakeData.PackStatic(TokenUpdates(), xs); c.Ok? && Legal(c.value) && UnpackTokens(c.value) == Ok(xs)
  {
    TokenUpdatesAdvance();
    AdvancesConsumes(TokenUpdates());
    forall i | 0 <= i < |xs| ensures IsField(TokenUpdates(), xs[i]) { TokenUpdateField(xs[i]); }
    FieldsComeBack(TokenUpdates(), xs);
  }

  lemma {:induction false} GasComesBack(xs: seq<GasUpdate>)
    ensures var c := SnakeData.PackStatic(GasUpdates(), xs); c.Ok? && Legal(c.value) && UnpackGas(c.value) == Ok(xs)
  {
    GasUpdateField(GasUpdate(0, 0));
    AdvancesConsumes(GasUpdates());
    forall i | 0 <= i < |xs| ensures IsField(GasUpdates(), xs[i]) { GasUpdateField(xs[i]); }
    FieldsComeBack(GasUpdates(), xs);
  }

  lemma {:induction false} RootsComeBack(xs: seq<MerkleRoot>)
    ensures SnakeData.PackStatic(MerkleRoots(), xs).Ok? <==> AddressesFit(xs)
    ensures var c := SnakeData.PackStatic(MerkleRoots(), xs); c.Ok? ==> Legal(c.value) && UnpackRoots(c.value) == Ok(xs)
  {
    MerkleRootsAdvance();
    AdvancesConsumes(MerkleRoots());
    if AddressesFit(xs) {
      forall i | 0 <= i < |xs| ensures IsField(MerkleRoots(), xs[i]) { MerkleRootField(xs[i]); }
      FieldsComeBack(MerkleRoots(), xs);
    } else {
      var i :| 0 <= i < |xs| && !(1 <= |xs[i].onRamp| <= 64);
      MerkleRootRefused(xs[i]);
      assert EncodeAll(MerkleRoots(), xs).Err?;
    }
  }

  lemma {:induction false} SignaturesComeBack(xs: seq<seq<Byte>>)
    ensures var c := SnakeRef.PackRefs(SignatureBytes(), xs);
            c.Ok? && Legal(c.value) && UnpackSignatures(c.value) == Ok(xs)
  {
    forall i | 0 <= i < |xs| ensures SnakeRef.Storable(SignatureBytes(), xs[i]) { SnakeBytes.RoundTrip(xs[i]); }
    SnakeRef.RoundTrip(SignatureBytes(), xs);
  }

  lemma {:induction false} AssembledComesApart(
    tokens: Cell -> Result<seq<TokenUpdate>>, gas: Cell -> Result<seq<GasUpdate>>,
    roots: Cell -> Result<seq<MerkleRoot>>, signatures: Cell -> Result<seq<seq<Byte>>>,
    t: Cell, g: Cell, b: Cell, u: Cell, s: Cell, r: CellReport)
    requires tokens(t) == Ok(r.tokens) && gas(g) == Ok(r.gas)
    requires roots(b) == Ok(r.blessed) && roots(u) == Ok(r.unblessed) && signatures(s) == Ok(r.signatures)
    ensures Disassemble(tokens, gas, roots, signatures, Assembled(t, g, b, u, s)) == Ok(r)
  {
  }

  lemma {:induction false} AssembledIsLegal(t: Cell, g: Cell, b: Cell, u: Cell, s: Cell)
    requires Legal(t) && Legal(g) && Legal(b) && Legal(u) && Legal(s)
    ensures Legal(Assembled(t, g, b, u, s))
  {
    assert Legal(Cell([], [t, g])) && Legal(Cell([], [b, u]));
  }

  /** The struct is written unless some on-ramp address has a refused length, and then read back. */
  lemma {:induction false} CellReportComesBack(r: CellReport)
    ensures ReportCell(r).Ok? <==> AddressesFit(r.blessed) && AddressesFit(r.unblessed)
    ensures ReportCell(r).Ok? ==> Legal(ReportCell(r).value) && UnpackReport(ReportCell(r).value) == Ok(r)
  {
    TokensComeBack(r.tokens);
    GasComesBack(r.gas);
    RootsComeBack(r.blessed);
    RootsComeBack(r.unblessed);
    SignaturesComeBack(r.signatures);
    if AddressesFit(r.blessed) && AddressesFit(r.unblessed) {
      var t, g := SnakeData.PackStatic(TokenUpdates(), r.tokens).value, SnakeData.PackStatic(GasUpdates(), r.gas).value;
      var b, u := SnakeData.PackStatic(MerkleRoots(), r.blessed).value, SnakeData.PackStatic(MerkleRoots(), r.unblessed).value;
      var s := SnakeRef.PackRefs(SignatureBytes(), r.signatures).value;
      AssembledIsLegal(t, g, b, u, s);
      AssembledComesApart(UnpackTokens, UnpackGas, UnpackRoots, UnpackSignatures, t, g, b, u, s, r);
    }
  }

  lemma {:induction false} TokensConvertBack(text: AddressText, prices: seq<TokenPrice>)
    ensures TryMap(TokenEncoder(text), prices).Ok? <==> TokensEncodable(text, prices)
    ensures TokensEncodable(text, prices) ==>
              TryMap(TokenDecoder(text), TryMap(TokenEncoder(text), prices).value) == Ok(CanonicalPrices(text, prices))
  {
    if TokensEncodable(text, prices) {
      var updates := TryMap(TokenEncoder(text), prices).value;
      assert TryMap(TokenDecoder(text), updates).Ok?;
      assert TryMap(TokenDecoder(text), updates).value == CanonicalPrices(text, prices);
    }
  }

  lemma {:induction false} GasConvertsBack(prices: seq<GasPrice>)
    ensures TryMap(GasEncoder(), prices).Ok? <==> forall i :: 0 <= i < |prices| ==> prices[i].price.Some?
    ensures TryMap(GasEncoder(), prices).Ok? ==>
              TryMap(GasDecoder(), TryMap(GasEncoder(), prices).value) == Ok(prices)
  {
    var updates := TryMap(GasEncoder(), prices);
    if updates.Ok? {
      assert TryMap(GasDecoder(), updates.value).Ok?;
      assert TryMap(GasDecoder(), updates.value).value == prices;
    }
  }

  lemma {:induction false} SignaturesConvertBack(signatures: seq<Signature>)
    ensures TryMap(SignatureEncoder(), signatures).Ok?
    ensures TryMap(SignatureDecoder(), TryMap(SignatureEncoder(), signatures).value) == Ok(signatures)
  {
    var packed := TryMap(SignatureEncoder(), signatures).value;
    forall i | 0 <= i < |signatures| ensures SignatureDecoder()(packed[i]) == Ok(signatures[i]) {
      var s := signatures[i];
      assert packed[i] == s.r + s.s && packed[i][..32] == s.r && packed[i][32..] == s.s;
    }
    assert TryMap(SignatureDecoder(), packed).Ok?;
    assert TryMap(SignatureDecoder(), packed).value == signatures;
  }

  lemma {:induction false} ReportConvertsBack(text: AddressText, report: Report)
    ensures ToCellReport(text, report).Ok? <==>
            TokensEncodable(text, report.tokenPrices) && forall i :: 0 <= i < |report.gasPrices| ==> report.gasPrices[i].price.Some?
    ensures ToCellReport(text, report).Ok? ==>
              var r := ToCellReport(text, report).value;
              && r.blessed == report.blessed && r.unblessed == report.unblessed
              && FromCellReport(text, r) == Ok(Canonicalised(text, report))
  {
    TokensConvertBack(text, report.tokenPrices);
    GasConvertsBack(report.gasPrices);
    SignaturesConvertBack(report.signatures);
  }

  /** Encoding succeeds exactly on the encodable reports: nothing is too large for a cell. */
  lemma {:induction false} EncodesExactly(text: AddressText, report: Report)
    ensures EncodeReport(text, report).Ok? <==> Encodable(text, report)
  {
    ReportConvertsBack(text, report);
    var r := ToCellReport(text, report);
    if r.Ok? { CellReportComesBack(r.value); }
  }

  /** A signature is written byte by byte, in order. */
  lemma {:induction false} SignatureLayout(b: seq<Byte>)
    ensures SignatureBytes().toCell(b).Ok? && ChainBits(SignatureBytes().toCell(b).value) == BytesToBits(b)
  {
    SnakeBytes.PackedInOrder(b);
  }

  /** Where the lists are: price updates, Merkle roots and signatures in this order, token before gas
      prices, blessed before unblessed roots. */
  ghost predicate LaidOut(c: Cell, t: Cell, g: Cell, b: Cell, u: Cell, s: Cell) {
    && c.bits == [] && |c.refs| == 3 && c.refs[2] == s
    && c.refs[0].bits == [] && |c.refs[0].refs| == 2 && c.refs[0].refs[0] == t && c.refs[0].refs[1] == g
    && c.refs[1].bits == [] && |c.refs[1].refs| == 2 && c.refs[1].refs[0] == b && c.refs[1].refs[1] == u
  }

  lemma {:induction false} AssembledLayout(t: Cell, g: Cell, b: Cell, u: Cell, s: Cell)
    ensures LaidOut(Assembled(t, g, b, u, s), t, g, b, u, s)
  {
  }

  lemma {:induction false} CellReportLayout(r: CellReport) returns (t: Cell, g: Cell, b: Cell, u: Cell, s: Cell)
    requires ReportCell(r).Ok?
    ensures LaidOut(ReportCell(r).value, t, g, b, u, s)
    ensures SnakeData.PackStatic(TokenUpdates(), r.tokens) == Ok(t) && SnakeData.PackStatic(GasUpdates(), r.gas) == Ok(g)
    ensures SnakeData.PackStatic(MerkleRoots(), r.blessed) == Ok(b) && SnakeData.PackStatic(MerkleRoots(), r.unblessed) == Ok(u)
    ensures SnakeRef.PackRefs(SignatureBytes(), r.signatures) == Ok(s)
  {
    t, g := SnakeData.PackStatic(TokenUpdates(), r.tokens).value, SnakeData.PackStatic(GasUpdates(), r.gas).value;
    b, u := SnakeData.PackStatic(MerkleRoots(), r.blessed).value, SnakeData.PackStatic(MerkleRoots(), r.unblessed).value;
    s := SnakeRef.PackRefs(SignatureBytes(), r.signatures).value;
    AssembledLayout(t, g, b, u, s);
  }

  /** What the elements of the lists are: parsed addresses with the prices, chains with the prices, the roots
      as they are, and the two halves of the signatures. */
  ghost predicate Converted(text: AddressText, report: Report, r: CellReport) {
    && |r.tokens| == |report.tokenPrices| && |r.gas| == |report.gasPrices| && |r.signatures| == |report.signatures|
    && (forall i :: 0 <= i < |r.tokens| ==>
          && text.parse(report.tokenPrices[i].token) == Ok(r.tokens[i].token)
          && report.tokenPrices[i].price == Some(r.tokens[i].price))
    && (forall i :: 0 <= i < |r.gas| ==>
          r.gas[i].chain == report.gasPrices[i].chain && report.gasPrices[i].price == Some(r.gas[i].price))
    && r.blessed == report.blessed && r.unblessed == report.unblessed
    && (forall i :: 0 <= i < |r.signatures| ==> r.signatures[i] == report.signatures[i].r + report.signatures[i].s)
  }

  lemma {:induction false} ReportConverts(text: AddressText, report: Report)
    requires ToCellReport(text, report).Ok?
    ensures Converted(text, report, ToCellReport(text, report).value)
  {
    var r := ToCellReport(text, report).value;
    forall i | 0 <= i < |r.tokens|
      ensures text.parse(report.tokenPrices[i].token) == Ok(r.tokens[i].token) && report.tokenPrices[i].price == Some(r.tokens[i].price)
    {
      assert TokenEncoder(text)(report.tokenPrices[i]) == Ok(r.tokens[i]);
    }
    forall i | 0 <= i < |r.gas| ensures r.gas[i].chain == report.gasPrices[i].chain && report.gasPrices[i].price == Some(r.gas[i].price) {
      assert GasEncoder()(report.gasPrices[i]) == Ok(r.gas[i]);
    }
    forall i | 0 <= i < |r.signatures| ensures r.signatures[i] == report.signatures[i].r + report.signatures[i].s {
      assert SignatureEncoder()(report.signatures[i]) == Ok(r.signatures[i]);
    }
  }

  /** The cells of an encoded report, list by list. */
  lemma {:induction false} ReportLayout(text: AddressText, report: Report)
    returns (r: CellReport, t: Cell, g: Cell, b: Cell, u: Cell, s: Cell)
    requires EncodeReport(text, report).Ok?
    ensures Converted(text, report, r) && LaidOut(EncodeReport(text, report).value, t, g, b, u, s)
    ensures SnakeData.PackStatic(TokenUpdates(), r.tokens) == Ok(t) && SnakeData.PackStatic(GasUpdates(), r.gas) == Ok(g)
    ensures SnakeData.PackStatic(MerkleRoots(), r.blessed) == Ok(b) && SnakeData.PackStatic(MerkleRoots(), r.unblessed) == Ok(u)
    ensures SnakeRef.PackRefs(SignatureBytes(), r.signatures) == Ok(s)
  {
    r := ToCellReport(text, report).value;
    ReportConverts(text, report);
    t, g, b, u, s := CellReportLayout(r);
  }

  /** Whatever was encoded decodes, into the same report with canonical token addresses. */
  lemma {:induction false} DecodesWhatWasEncoded(text: AddressText, report: Report)
    requires EncodeReport(text, report).Ok?
    ensures Legal(EncodeReport(text, report).value)
    ensures DecodeReport(text, EncodeReport(text, report).value) == Ok(Canonicalised(text, report))
  {
    ReportConvertsBack(text, report);
    CellReportComesBack(ToCellReport(text, report).value);
  }

  ghost predicate AllCanonical(text: AddressText, prices: seq<TokenPrice>) {
    forall i :: 0 <= i < |prices| ==> Canonical(text, prices[i].token) == prices[i].token
  }

  lemma {:induction false} CanonicalPricesFixed(text: AddressText, prices: seq<TokenPrice>)
    ensures CanonicalPrices(text, prices) == prices <==> AllCanonical(text, prices)
  {
    var r := CanonicalPrices(text, prices);
    if AllCanonical(text, prices) {
      assert forall i :: 0 <= i < |prices| ==> r[i] == prices[i];
    }
    if r == prices {
      forall i | 0 <= i < |prices| ensures Canonical(text, prices[i].token) == prices[i].token {
        assert r[i].token == Canonical(text, prices[i].token);
      }
    }
  }

  /** The round trip returns the very same report if and only if every token address is given in
      its canonical text form. */
  lemma {:induction false} RoundTripIsExact(text: AddressText, report: Report)
    requires EncodeReport(text, report).Ok?
    ensures DecodeReport(text, EncodeReport(text, report).value) == Ok(report) <==> AllCanonical(text, report.tokenPrices)
  {
    DecodesWhatWasEncoded(text, report);
    CanonicalPricesFixed(text, report.tokenPrices);
    var back := Canonicalised(text, report);
    assert back == report <==> back.tokenPrices == report.tokenPrices;
  }
}
