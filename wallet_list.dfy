/**
 The wallet-support selection of the Safe web front-end: a fixed catalog of
 wallet descriptors for the onboarding library, filtered by the disabled-wallet
 configuration and by desktop support, with an end-to-end test wallet appended
 and a pairing module prepended under their conditions.

 Everything the original reads from its surroundings is an explicit input here:
 the disabled-wallet list, the desktop-app flag, the test runner's environment
 and the pairing-support answer form a `Runtime`; the string value of each
 wallet-name enum member is the parameter `moduleName`.
 */
module WalletList {
  import opened Normalisation

  datatype Option<T> = None | Some(value: T)

  /** Chain ids are decimal strings. */
  type ChainId = string

  /** Rinkeby's chain id (EIP-155): the only chain on which the end-to-end test wallet is injected. */
  const RINKEBY: ChainId := "4"

  /** The test-runner environment variable that carries the end-to-end wallet's mnemonic. */
  const CYPRESS_MNEMONIC: string := "CYPRESS_MNEMONIC"

  /** The wallet-name enum members that the catalog uses. */
  datatype WalletName =
    | Metamask | TallyHo | WalletConnect | Trezor | Ledger | Keystone | Trust | Lattice
    | Fortmatic | Portis | Authereum | Torus | Coinbase | WalletLink | Opera | OperaTouch

  /** The fields of a descriptor besides `walletName` and `desktop`. Values that come
      from configuration, the chain registry or the browser are opaque tokens; the
      ones that depend on the chain carry it. */
  datatype Field =
    | Preferred(preferred: bool)
    | RpcMap                          // WalletConnect's `rpc`: chain id to RPC URL, for every known chain
    | Bridge                          // the WalletConnect bridge URL
    | AppUrl(url: string)
    | Email(address: string)
    | RpcUrl(chain: ChainId)          // the RPC service URL of `chain`
    | LedgerTransport                 // the desktop app's HID transport
    | CustomNetwork(network: ChainId) // the dummy network descriptor built for `network`
    | AppName(name: string)
    | FortmaticApiKey
    | PortisApiKey

  /** A catalog entry: a descriptor together with its desktop-support flag. */
  datatype Wallet = Wallet(walletName: WalletName, desktop: bool, fields: set<Field>)

  /** A descriptor as handed to the onboarding library: the catalog entry without `desktop`. */
  datatype WalletOptions = WalletOptions(walletName: WalletName, fields: set<Field>)

  /** An element of the selected wallet list. */
  datatype WalletModule =
    | Init(options: WalletOptions)
    | Pairing(chain: ChainId)         // the pairing module built for `chain`
    | E2EWallet                       // the end-to-end test wallet module

  /** The ambient state the selection reads. */
  datatype Runtime = Runtime(
    disabledWallets: seq<string>,            // the disabled-wallet configuration
    isDesktop: bool,                         // running as the desktop app
    cypress: Option<map<string, string>>,    // the test runner, when present, with its environment
    pairingSupported: bool)                  // the pairing-support answer

  /** The catalog's wallets, in display order. */
  const CatalogOrder: seq<WalletName> :=
    [ Metamask, TallyHo, WalletConnect, Trezor, Ledger, Keystone, Trust, Lattice,
      Fortmatic, Portis, Authereum, Torus, Coinbase, WalletLink, Opera, OperaTouch ]

  /** The wallets that support the desktop app. */
  const DesktopWallets: set<WalletName> := {WalletConnect, Trezor, Ledger, Fortmatic, Portis, Torus}

  function Names(ws: seq<Wallet>): seq<WalletName> {
    seq(|ws|, i requires 0 <= i < |ws| => ws[i].walletName)
  }

  /** `a` is `b` with some elements left out, the rest in their order. */
  predicate IsSubsequence<T(==)>(a: seq<T>, b: seq<T>)
    decreases |b|
  {
    if a == [] then true
    else if b == [] then false
    else (a[0] == b[0] && IsSubsequence(a[1..], b[1..])) || IsSubsequence(a, b[1..])
  }

  /** The wallet catalog for `chain`: sixteen wallets in the fixed order,
      desktop support exactly for the six desktop wallets, and chain-dependent
      fields built for `chain`. */
  function Catalog(chain: ChainId): (r: seq<Wallet>)
    ensures |r| == 16
    ensures Names(r) == CatalogOrder
    ensures forall i :: 0 <= i < |r| ==> (r[i].desktop <==> r[i].walletName in DesktopWallets)
    ensures forall i, f :: 0 <= i < |r| && f in r[i].fields ==>
              (f.RpcUrl? ==> f.chain == chain) && (f.CustomNetwork? ==> f.network == chain)
  {
    var rpcUrl := RpcUrl(chain);
    var network := CustomNetwork(chain);
    [ Wallet(Metamask, false, {Preferred(true)}),
      Wallet(TallyHo, false, {Preferred(false)}),
      Wallet(WalletConnect, true, {RpcMap, Bridge, Preferred(true)}),
      Wallet(Trezor, true, {AppUrl("gnosis-safe.io"), Preferred(true), Email("support@safe.global"), rpcUrl, network}),
      Wallet(Ledger, true, {Preferred(true), rpcUrl, LedgerTransport, network}),
      Wallet(Keystone, false, {rpcUrl, AppName("Safe"), network}),
      Wallet(Trust, false, {Preferred(true)}),
      Wallet(Lattice, false, {rpcUrl, AppName("Safe")}),
      Wallet(Fortmatic, true, {FortmaticApiKey}),
      Wallet(Portis, true, {PortisApiKey}),
      Wallet(Authereum, false, {}),
      Wallet(Torus, true, {}),
      Wallet(Coinbase, false, {}),
      Wallet(WalletLink, false, {rpcUrl}),
      Wallet(Opera, false, {}),
      Wallet(OperaTouch, false, {}) ]
  }

  /** The `some` over the disabled list: does an entry match `name` once both are normalised? */
  function SomeDisables(disabled: seq<string>, name: string): (r: bool)
    ensures r <==> exists i :: 0 <= i < |disabled| && Normalise(disabled[i]) == Normalise(name)
  {
    if disabled == [] then false
    else Normalise(disabled[0]) == Normalise(name) || SomeDisables(disabled[1..], name)
  }

  /** A wallet name is supported unless some disabled entry matches it, ignoring case and whitespace. */
  function IsSupportedWallet(disabled: seq<string>, name: string): (r: bool)
    ensures r <==> forall i :: 0 <= i < |disabled| ==> Normalise(disabled[i]) != Normalise(name)
  {
    !SomeDisables(disabled, name)
  }

  /** The filter's predicate: supported, and desktop-capable when running as the desktop app. */
  predicate Keep(w: Wallet, disabled: seq<string>, isDesktop: bool, moduleName: WalletName -> string)
    ensures Keep(w, disabled, isDesktop, moduleName) ==> IsSupportedWallet(disabled, moduleName(w.walletName))
    ensures !isDesktop ==> (Keep(w, disabled, isDesktop, moduleName) <==> IsSupportedWallet(disabled, moduleName(w.walletName)))
    ensures isDesktop && !w.desktop ==> !Keep(w, disabled, isDesktop, moduleName)
  {
    && IsSupportedWallet(disabled, moduleName(w.walletName))
    && (if isDesktop then w.desktop else true)
  }

  /** The `filter` step: the kept wallets, in their order. */
  function FilterSupported(ws: seq<Wallet>, disabled: seq<string>, isDesktop: bool, moduleName: WalletName -> string)
    : (r: seq<Wallet>)
    ensures |r| <= |ws|
    ensures forall w :: w in r <==> w in ws && Keep(w, disabled, isDesktop, moduleName)
    ensures IsSubsequence(r, ws)
  {
    if ws == [] then []
    else if Keep(ws[0], disabled, isDesktop, moduleName)
    then [ws[0]] + FilterSupported(ws[1..], disabled, isDesktop, moduleName)
    else FilterSupported(ws[1..], disabled, isDesktop, moduleName)
  }

  /** Puts the desktop flag back on a descriptor. */
  function WithDesktop(o: WalletOptions, desktop: bool): Wallet {
    Wallet(o.walletName, desktop, o.fields)
  }

  /** The `map` step: each wallet becomes an init descriptor without its `desktop`
      field; putting the flag back gives the original entry. */
  function StripDesktop(ws: seq<Wallet>): (r: seq<WalletModule>)
    ensures |r| == |ws|
    ensures forall i :: 0 <= i < |ws| ==> r[i].Init? && WithDesktop(r[i].options, ws[i].desktop) == ws[i]
  {
    seq(|ws|, i requires 0 <= i < |ws| => Init(WalletOptions(ws[i].walletName, ws[i].fields)))
  }

  /** The end-to-end condition: Rinkeby, the test runner present, and a non-empty mnemonic in its environment. */
  predicate E2EInjected(chain: ChainId, cypress: Option<map<string, string>>)
    ensures chain != RINKEBY ==> !E2EInjected(chain, cypress)
    ensures cypress.None? ==> !E2EInjected(chain, cypress)
    ensures cypress.Some? && CYPRESS_MNEMONIC !in cypress.value ==> !E2EInjected(chain, cypress)
    ensures (cypress.Some? && CYPRESS_MNEMONIC in cypress.value && cypress.value[CYPRESS_MNEMONIC] == "")
            ==> !E2EInjected(chain, cypress)
  {
    && chain == RINKEBY
    && cypress.Some?
    && CYPRESS_MNEMONIC in cypress.value
    && cypress.value[CYPRESS_MNEMONIC] != ""
  }

  /** The selected wallet list: pairing module (if supported), kept catalog
      wallets without `desktop`, end-to-end wallet (if injected). */
  function SupportedWallets(chain: ChainId, rt: Runtime, moduleName: WalletName -> string): (r: seq<WalletModule>)
    ensures |r| <= |CatalogOrder| + 2
    ensures rt.pairingSupported ==> |r| > 0 && r[0] == Pairing(chain)
    ensures !rt.pairingSupported ==> Pairing(chain) !in r
  {
    var kept := StripDesktop(FilterSupported(Catalog(chain), rt.disabledWallets, rt.isDesktop, moduleName));
    var withE2E := if E2EInjected(chain, rt.cypress) then kept + [E2EWallet] else kept;
    if rt.pairingSupported then [Pairing(chain)] + withE2E else withE2E
  }

  /** `getSupportedWallets`: filter and strip the catalog, push the end-to-end
      wallet onto the result, then prepend the pairing module. */
  method GetSupportedWallets(chain: ChainId, rt: Runtime, moduleName: WalletName -> string)
    returns (wallets: seq<WalletModule>)
    ensures wallets == SupportedWallets(chain, rt, moduleName)
  {
    var supportedWallets := StripDesktop(FilterSupported(Catalog(chain), rt.disabledWallets, rt.isDesktop, moduleName));
    if E2EInjected(chain, rt.cypress) {
      supportedWallets := supportedWallets + [E2EWallet];
    }
    if rt.pairingSupported {
      wallets := [Pairing(chain)] + supportedWallets;
    } else {
      wallets := supportedWallets;
    }
  }
}
