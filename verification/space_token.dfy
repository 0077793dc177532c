/**
 * The SPACE token program's own state: one `SpaceToken` account and the effect each of
 * the four instructions has on it. The SPL token calls each instruction makes are
 * represented by whether they succeeded; a failing call, an `Unauthorized` error or a
 * panic aborts the whole instruction, so the account is left as it was.
 */
module SpaceTokenProgram {
  import opened Js

  const U64_MAX: int := 0xFFFF_FFFF_FFFF_FFFF

  newtype u64 = x: int | 0 <= x <= U64_MAX
  newtype u8 = x: int | 0 <= x < 0x100

  /** An account address; the program only ever compares two of them. */
  datatype Pubkey = Pubkey(bytes: seq<bv8>)

  /** The `SpaceToken` account. */
  datatype SpaceToken = SpaceToken(
    name: string,
    symbol: string,
    uri: string,
    decimals: u8,
    authority: Pubkey,
    supply: u64)

  /** Why an instruction fails: the `Unauthorized` error code, the `unwrap` panic on a
      `checked_add` overflow, a failing SPL token call, or Anchor's `AccountDidNotSerialize`
      when the account no longer fits the bytes allocated for it. */
  datatype ProgramError = Unauthorized | SupplyOverflow | TokenCallFailed | AccountDidNotSerialize

  /** Bytes allocated for the account by `init` (8 + 32 + 4 + 200); nothing resizes it. */
  const ACCOUNT_SPACE: nat := 8 + 32 + 4 + 200

  /** The fixed part of the Borsh encoding Anchor writes back: the 8-byte discriminator, a
      4-byte length before each of the three strings, one byte of decimals, 32 bytes of
      authority and 8 of supply. */
  const FIXED_BYTES: nat := 8 + 3 * 4 + 1 + 32 + 8

  /** Bytes left for the UTF-8 text of name, symbol and uri together. */
  const METADATA_ROOM: nat := ACCOUNT_SPACE - FIXED_BYTES

  /** Bytes one character takes in UTF-8. */
  function Utf8Width(c: char): nat
  {
    if c as int < 0x80 then 1 else if c as int < 0x800 then 2 else if c as int < 0x1_0000 then 3 else 4
  }

  /** Bytes a string takes in UTF-8: between one and four per character, one per ASCII
      character. */
  function Utf8Length(s: string): (n: nat)
    ensures |s| <= n <= 4 * |s|
    ensures (forall i :: 0 <= i < |s| ==> s[i] as int < 0x80) ==> n == |s|
  {
    if |s| == 0 then 0 else Utf8Width(s[0]) + Utf8Length(s[1..])
  }

  /** The account's encoded size is within the bytes allocated for it. */
  predicate Fits(st: SpaceToken)
  {
    FIXED_BYTES + Utf8Length(st.name) + Utf8Length(st.symbol) + Utf8Length(st.uri) <= ACCOUNT_SPACE
  }

  /** The account with each given metadata field replacing the stored one. */
  function WithMetadata(st: SpaceToken, name: Option<string>, symbol: Option<string>,
                        uri: Option<string>): SpaceToken
  {
    var st1 := if name.Some? then st.(name := name.value) else st;
    var st2 := if symbol.Some? then st1.(symbol := symbol.value) else st1;
    if uri.Some? then st2.(uri := uri.value) else st2
  }

  /** With ASCII metadata the limit is 183 characters over name, symbol and uri together. */
  lemma AsciiMetadataLimit(st: SpaceToken)
    requires forall i :: 0 <= i < |st.name| ==> st.name[i] as int < 0x80
    requires forall i :: 0 <= i < |st.symbol| ==> st.symbol[i] as int < 0x80
    requires forall i :: 0 <= i < |st.uri| ==> st.uri[i] as int < 0x80
    ensures Fits(st) <==> |st.name| + |st.symbol| + |st.uri| <= 183
  {
  }

  /** `initialize_mint`: the metadata comes from the arguments, the signer becomes the
      authority and the supply starts at zero. A failing token call aborts first; metadata
      too long for the allocated account fails when Anchor writes it back. */
  function InitializeMint(name: string, symbol: string, uri: string, decimals: u8, signer: Pubkey,
                          tokenCallOk: bool): (r: Result<SpaceToken, ProgramError>)
    ensures r.Ok? <==> tokenCallOk && Utf8Length(name) + Utf8Length(symbol) + Utf8Length(uri) <= METADATA_ROOM
    ensures !tokenCallOk ==> r == Err(TokenCallFailed)
    ensures tokenCallOk && r.Err? ==> r.error == AccountDidNotSerialize
    ensures r.Ok? ==> r.value.name == name && r.value.symbol == symbol && r.value.uri == uri
                      && r.value.decimals == decimals && r.value.authority == signer && r.value.supply == 0
  {
    if !tokenCallOk then Err(TokenCallFailed)
    else
      var st := SpaceToken(name, symbol, uri, decimals, signer, 0);
      if Fits(st) then Ok(st) else Err(AccountDidNotSerialize)
  }

  /** `u64::checked_add`. */
  function CheckedAdd(a: u64, b: u64): (r: Option<u64>)
    ensures r.Some? <==> a as int + b as int <= U64_MAX
    ensures r.Some? ==> r.value as int == a as int + b as int
  {
    if a as int + b as int <= U64_MAX then Some((a as int + b as int) as u64) else None
  }

  /** `mint_tokens`: the supply grows by exactly `amount`; a sum past the u64 maximum panics
      before the token call. No other field changes, and a failed instruction changes nothing. */
  function MintTokens(st: SpaceToken, amount: u64, tokenCallOk: bool): (r: Result<SpaceToken, ProgramError>)
    ensures r.Ok? <==> st.supply as int + amount as int <= U64_MAX && tokenCallOk
    ensures st.supply as int + amount as int > U64_MAX ==> r == Err(SupplyOverflow)
    ensures r.Ok? ==> r.value == st.(supply := r.value.supply)
    ensures r.Ok? ==> r.value.supply as int == st.supply as int + amount as int
  {
    match CheckedAdd(st.supply, amount)
    case None => Err(SupplyOverflow)
    case Some(s) => if tokenCallOk then Ok(st.(supply := s)) else Err(TokenCallFailed)
  }

  /** `update_metadata`: only the authority may call it. Each given field replaces the stored
      one, each omitted field is kept, and decimals, authority and supply never change. The
      updated account must still fit its allocation, or the write-back fails. */
  function UpdateMetadata(st: SpaceToken, signer: Pubkey, name: Option<string>, symbol: Option<string>,
                          uri: Option<string>): (r: Result<SpaceToken, ProgramError>)
    ensures signer != st.authority ==> r == Err(Unauthorized)
    ensures signer == st.authority ==>
              (r.Ok? <==> Utf8Length(if name.Some? then name.value else st.name)
                          + Utf8Length(if symbol.Some? then symbol.value else st.symbol)
                          + Utf8Length(if uri.Some? then uri.value else st.uri) <= METADATA_ROOM)
    ensures signer == st.authority && r.Err? ==> r.error == AccountDidNotSerialize
    ensures r.Ok? ==>
              && r.value.name == (if name.Some? then name.value else st.name)
              && r.value.symbol == (if symbol.Some? then symbol.value else st.symbol)
              && r.value.uri == (if uri.Some? then uri.value else st.uri)
              && r.value.decimals == st.decimals && r.value.authority == st.authority
              && r.value.supply == st.supply
  {
    if st.authority != signer then Err(Unauthorized)
    else
      var updated := WithMetadata(st, name, symbol, uri);
      if Fits(updated) then Ok(updated) else Err(AccountDidNotSerialize)
  }

  /** `transfer_authority`: only the authority may call it, and it changes the authority only. */
  function TransferAuthority(st: SpaceToken, signer: Pubkey, newAuthority: Pubkey): (r: Result<SpaceToken, ProgramError>)
    ensures r.Err? <==> signer != st.authority
    ensures r.Err? ==> r.error == Unauthorized
    ensures r.Ok? ==> r.value == st.(authority := newAuthority)
  {
    if st.authority != signer then Err(Unauthorized) else Ok(st.(authority := newAuthority))
  }

  /** Once the authority has moved to another key, the old one is refused by both gated
      instructions. */
  lemma OldAuthorityLocksOut(st: SpaceToken, newAuthority: Pubkey, name: Option<string>,
                             symbol: Option<string>, uri: Option<string>, other: Pubkey)
    requires newAuthority != st.authority
    ensures var after := TransferAuthority(st, st.authority, newAuthority);
            && after.Ok?
            && UpdateMetadata(after.value, st.authority, name, symbol, uri) == Err(Unauthorized)
            && TransferAuthority(after.value, st.authority, other) == Err(Unauthorized)
  {
  }

  /** An instruction sent to an initialised account. */
  datatype Instruction =
    | Mint(amount: u64, tokenCallOk: bool)
    | Update(signer: Pubkey, name: Option<string>, symbol: Option<string>, uri: Option<string>)
    | Transfer(signer: Pubkey, newAuthority: Pubkey)

  /** The account after one instruction; a failed instruction is rolled back. */
  function Step(st: SpaceToken, ix: Instruction): (r: SpaceToken)
    ensures r.decimals == st.decimals && r.supply >= st.supply
    ensures ix.Mint? ==> r == st || (r == st.(supply := r.supply) && r.supply as int == st.supply as int + ix.amount as int)
    ensures ix.Mint? && st.supply as int + ix.amount as int <= U64_MAX && ix.tokenCallOk ==>
              r == st.(supply := r.supply) && r.supply as int == st.supply as int + ix.amount as int
    ensures ix.Mint? && st.supply as int + ix.amount as int > U64_MAX ==> r == st
    ensures ix.Mint? && !ix.tokenCallOk ==> r == st
    ensures !ix.Mint? ==> r.supply == st.supply
    ensures !ix.Mint? && ix.signer != st.authority ==> r == st
    ensures ix.Update? && ix.signer == st.authority ==>
              r == if Fits(WithMetadata(st, ix.name, ix.symbol, ix.uri)) then WithMetadata(st, ix.name, ix.symbol, ix.uri) else st
    ensures ix.Transfer? && ix.signer == st.authority ==> r == st.(authority := ix.newAuthority)
  {
    var r := match ix
      case Mint(amount, ok) => MintTokens(st, amount, ok)
      case Update(signer, name, symbol, uri) => UpdateMetadata(st, signer, name, symbol, uri)
      case Transfer(signer, newAuthority) => TransferAuthority(st, signer, newAuthority);
    if r.Ok? then r.value else st
  }

  function Run(st: SpaceToken, ixs: seq<Instruction>): SpaceToken
    decreases |ixs|
  {
    if |ixs| == 0 then st else Run(Step(st, ixs[0]), ixs[1..])
  }

  /** Nothing burns tokens: over any sequence of instructions the supply never decreases,
      and the decimals never change. */
  lemma {:induction false} SupplyNeverDecreases(st: SpaceToken, ixs: seq<Instruction>)
    ensures Run(st, ixs).supply >= st.supply
    ensures Run(st, ixs).decimals == st.decimals
    decreases |ixs|
  {
    if |ixs| > 0 {
      SupplyNeverDecreases(Step(st, ixs[0]), ixs[1..]);
    }
  }

  /** A key that is not the authority cannot change anything but the supply: whatever
      instructions it signs, the metadata and the authority stay as they were. */
  predicate SignedOnlyBy(ixs: seq<Instruction>, key: Pubkey)
  {
    forall i :: 0 <= i < |ixs| ==> (ixs[i].Update? || ixs[i].Transfer?) ==> ixs[i].signer == key
  }

  lemma {:induction false} OutsiderChangesOnlySupply(st: SpaceToken, ixs: seq<Instruction>, key: Pubkey)
    requires key != st.authority
    requires SignedOnlyBy(ixs, key)
    ensures Run(st, ixs) == st.(supply := Run(st, ixs).supply)
    decreases |ixs|
  {
    if |ixs| > 0 {
      var next := Step(st, ixs[0]);
      assert next == st.(supply := next.supply);
      assert SignedOnlyBy(ixs[1..], key) by {
        forall i | 0 <= i < |ixs[1..]| ensures (ixs[1..][i].Update? || ixs[1..][i].Transfer?) ==> ixs[1..][i].signer == key {
          assert ixs[1..][i] == ixs[i + 1];
        }
      }
      OutsiderChangesOnlySupply(next, ixs[1..], key);
    }
  }

  /** Every instruction keeps a fitting account fitting: mint and transfer leave the strings
      alone, and an update that would outgrow the account is rolled back. */
  lemma StepKeepsFit(st: SpaceToken, ix: Instruction)
    requires Fits(st)
    ensures Fits(Step(st, ix))
  {
  }

  /** Every account the program can reach, from a successful `initialize_mint` through any
      instruction sequence, fits the bytes allocated for it. */
  lemma {:induction false} ReachableAccountsFit(st: SpaceToken, ixs: seq<Instruction>)
    requires Fits(st)
    ensures Fits(Run(st, ixs))
    decreases |ixs|
  {
    if |ixs| > 0 {
      StepKeepsFit(st, ixs[0]);
      ReachableAccountsFit(Step(st, ixs[0]), ixs[1..]);
    }
  }

  /** A freshly initialised account fits, and so does every account reached from it. */
  lemma InitializedAccountsFit(name: string, symbol: string, uri: string, decimals: u8, signer: Pubkey,
                               ixs: seq<Instruction>)
    requires InitializeMint(name, symbol, uri, decimals, signer, true).Ok?
    ensures Fits(Run(InitializeMint(name, symbol, uri, decimals, signer, true).value, ixs))
  {
    ReachableAccountsFit(InitializeMint(name, symbol, uri, decimals, signer, true).value, ixs);
  }
}
