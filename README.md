# Wallet-support selection of the Safe web front-end

This project models how the Safe front-end builds the list of wallet modules it hands to the
onboarding library (`bnc-onboard`):

- the fixed catalog of sixteen wallet descriptors, each with a `desktop` flag;
- `isSupportedWallet`, which matches a wallet name against the disabled-wallet configuration
  after removing all whitespace and lower-casing both sides;
- `getSupportedWallets`, which filters the catalog to supported wallets (and, in the desktop
  app, to desktop-capable ones), drops the `desktop` flag, pushes the end-to-end test wallet
  when running under the test runner on Rinkeby, and prepends the pairing module when pairing
  is supported.

The model has three modules:

- `Normalisation` (`normalisation.dfy`) covers whitespace removal (the JavaScript `\s` class),
  lower-casing, and the normal form under which names are compared.
- `WalletList` (`wallet_list.dfy`) holds the data model, the catalog, the matching predicate,
  the filter and map steps, and the selection.
  - `SupportedWallets` is the specification function.
  - `GetSupportedWallets` is the imperative method. It performs the same three steps as
    `SupportedWallets`; all it adds is the reassignment of a local list that stands for the
    in-place `push`. It is proved equal to `SupportedWallets`.
- `WalletListProperties` (`wallet_list_properties.dfy`) holds the properties of the selection:
  - the position of the injected modules;
  - which catalog wallets are kept, and in what order;
  - the length of the list;
  - two worked configurations.

Inputs the original reads from its surroundings are explicit here. The `Runtime` record has four
fields:

- the disabled-wallet list (`getDisabledWallets()`);
- `window.isDesktop`;
- the test runner with its environment (`window.Cypress` and `env(...)`);
- `isPairingSupported()`.

The string value of each `WALLETS` enum member is the parameter `moduleName`, because
`src/config/chain.d` is not part of this model.

## Model

| member | source | states |
|---|---|---|
| Normalisation.IsWhitespace | src/logic/wallets/utils/walletList.ts:103 | the `\s` class: the ECMAScript WhiteSpace and LineTerminator code points; among ASCII characters exactly space and tab through carriage return; never an upper-case letter |
| Normalisation.ToLowerChar | src/logic/wallets/utils/walletList.ts:103 | per-character `toLowerCase()`: an upper-case letter becomes the letter `'a' - 'A'` code points above it, any other character is unchanged; the result is never upper case and is whitespace exactly when the input is |
| Normalisation.StripWhitespace | src/logic/wallets/utils/walletList.ts:103 | `replace(/\s/g, '')`: a character occurs in the result exactly when it occurs in the input and is not whitespace, and the result is no longer than the input (order and count: `StripWhitespaceSingle` with `StripWhitespaceAppend`) |
| Normalisation.StripWhitespaceSingle | src/logic/wallets/utils/walletList.ts:103 | one character is dropped when it is whitespace and kept otherwise; with `StripWhitespaceAppend` this fixes the result of every string, order and count included |
| Normalisation.ToLower | src/logic/wallets/utils/walletList.ts:103 | `toLowerCase()`: same length; each upper-case letter becomes, in place, the letter `'a' - 'A'` code points above it; every other character is kept in place |
| Normalisation.ToLowerAppend | src/logic/wallets/utils/walletList.ts:103 | lower-casing distributes over concatenation |
| Normalisation.Normalise | src/logic/wallets/utils/walletList.ts:103 | the comparison key contains no whitespace and no upper-case letter, and is no longer than the name (what it is: `NormaliseAppend`, `NormaliseSingle`, `NormaliseFixed`) |
| Normalisation.NormaliseAppend | src/logic/wallets/utils/walletList.ts:103 | the key of a concatenation is the concatenation of the keys |
| Normalisation.NormaliseSingle | src/logic/wallets/utils/walletList.ts:103 | the key of one character is empty for whitespace and that character lower-cased otherwise; with `NormaliseAppend` this fixes the key of every name |
| Normalisation.NormaliseFixed | src/logic/wallets/utils/walletList.ts:103 | a name without whitespace and upper-case letters is its own key, so such names that differ have different keys |
| Normalisation.StripWhitespaceAppend | src/logic/wallets/utils/walletList.ts:103 | whitespace removal distributes over concatenation |
| Normalisation.StripWhitespaceToLower | src/logic/wallets/utils/walletList.ts:103 | removing whitespace and lower-casing commute |
| Normalisation.NormaliseIdempotent | src/logic/wallets/utils/walletList.ts:103 | normalising a normalised name changes nothing |
| Normalisation.NormaliseIgnoresWhitespace | src/logic/wallets/utils/walletList.ts:101-103 | inserting a whitespace character anywhere in a name leaves its normal form unchanged |
| Normalisation.NormaliseIgnoresCase | src/logic/wallets/utils/walletList.ts:101-103 | lower-casing a name first leaves its normal form unchanged |
| Normalisation.NormaliseIgnoresCaseOfFirst | src/logic/wallets/utils/walletList.ts:101-103 | names that differ only in the case of their first letter have the same normal form |
| Normalisation.WalletConnectSpellingsAgree | src/logic/wallets/utils/walletList.ts:102-103 | the configuration spelling "Wallet Connect" and the module name "walletConnect" have the same normal form |
| WalletList.Catalog | src/logic/wallets/utils/walletList.ts:21-97 | sixteen entries whose names are the catalog order; `desktop` is true exactly for WalletConnect, Trezor, Ledger, Fortmatic, Portis and Torus; the RPC URL and custom-network fields are built for the requested chain |
| WalletList.SomeDisables | src/logic/wallets/utils/walletList.ts:101-104 | the `some`: true exactly when some disabled entry has the same normal form as the name |
| WalletList.IsSupportedWallet | src/logic/wallets/utils/walletList.ts:100-105 | a name is supported exactly when no disabled entry has the same normal form |
| WalletList.Keep | src/logic/wallets/utils/walletList.ts:109-115 | the `filter` callback: a kept wallet is supported; in the web app a wallet is kept exactly when it is supported; in the desktop app a wallet without the `desktop` flag is never kept |
| WalletList.FilterSupported | src/logic/wallets/utils/walletList.ts:108-115 | the filter keeps exactly the catalog entries that are supported and, in the desktop app, desktop-capable; the result is an order-preserving subsequence of its input and no longer than it |
| WalletList.StripDesktop | src/logic/wallets/utils/walletList.ts:116 | the map gives one init descriptor per entry, in the same order; putting the `desktop` flag back gives the original entry, so all other fields are unchanged |
| WalletList.E2EInjected | src/logic/wallets/utils/walletList.ts:118 | the end-to-end condition fails on any chain other than Rinkeby, without the test runner, when the mnemonic variable is missing, and when it is the empty string |
| WalletList.SupportedWallets | src/logic/wallets/utils/walletList.ts:107-122 | the selection: at most the sixteen catalog wallets plus two injected modules; with pairing supported the pairing module for the chain is first, without it no pairing module appears (the position, membership and length lemmas below are stated about it) |
| WalletList.GetSupportedWallets | src/logic/wallets/utils/walletList.ts:107-122 | the list built by filtering, mapping, pushing the end-to-end wallet and prepending the pairing module is the selection `SupportedWallets` |
| WalletListProperties.SupportDependsOnNormalForm | src/logic/wallets/utils/walletList.ts:100-105 | a name and its normal form are supported alike |
| WalletListProperties.NothingDisabled | src/logic/wallets/utils/walletList.ts:100-105 | with an empty disabled list every name is supported |
| WalletListProperties.SupportedAgainstOneEntry | src/logic/wallets/utils/walletList.ts:100-105 | against a one-entry disabled list, a name is supported exactly when its normal form differs from the entry's |
| WalletListProperties.DisabledDespiteCaseAndSpacing | src/logic/wallets/utils/walletList.ts:101-104 | a name whose normal form equals that of a disabled entry is not supported |
| WalletListProperties.SpacedEntryDisablesWalletConnect | src/logic/wallets/utils/walletList.ts:101-104 | the disabled entry "Wallet Connect" disables the module named "walletConnect" |
| WalletListProperties.CatalogCoversEveryWallet | src/logic/wallets/utils/walletList.ts:35-97 | every member of the model's `WalletName` type (declared as exactly the sixteen wallets the catalog lists) occurs in the catalog order |
| WalletListProperties.CatalogOrderDistinct | src/logic/wallets/utils/walletList.ts:35-97 | no wallet appears twice in the catalog |
| WalletListProperties.CatalogEntry | src/logic/wallets/utils/walletList.ts:35-97 | for every chain, each wallet has a catalog entry whose `desktop` flag is set exactly for the desktop wallets |
| WalletListProperties.InitNamesOfStripped | src/logic/wallets/utils/walletList.ts:116 | stripping `desktop` keeps the wallet names and their order |
| WalletListProperties.InitNamesOfSelection | src/logic/wallets/utils/walletList.ts:107-122 | the init descriptors of the selection are, by name, the entries kept by the filter, in order |
| WalletListProperties.PairingComesFirst | src/logic/wallets/utils/walletList.ts:122 | with pairing supported, element 0 is the pairing module for the chain and the rest is the list selected without pairing; a pairing module sits only at index 0, and only when pairing is supported |
| WalletListProperties.PushOnlyAppends | src/logic/wallets/utils/walletList.ts:118-122 | the list is the one selected without the test runner, followed by the end-to-end wallet when it is injected: the push changes nothing else |
| WalletListProperties.E2EWalletComesLast | src/logic/wallets/utils/walletList.ts:118-120 | the end-to-end wallet is in the list exactly when the chain is Rinkeby, the test runner is present and its mnemonic is set; it is then the last element and appears once; everything before it is the list selected without the test runner |
| WalletListProperties.KeptIsSelected | src/logic/wallets/utils/walletList.ts:108-115 | a supported wallet that passes the desktop test is kept by the filter |
| WalletListProperties.SelectedIsKept | src/logic/wallets/utils/walletList.ts:108-115 | a wallet kept by the filter is supported and passes the desktop test |
| WalletListProperties.SelectedExactlyWhenKept | src/logic/wallets/utils/walletList.ts:108-116 | a catalog wallet is offered exactly when it is supported and, in the desktop app, desktop-capable |
| WalletListProperties.SelectedInCatalogOrder | src/logic/wallets/utils/walletList.ts:108-116 | the offered wallets are a subsequence of the catalog order, each at most once |
| WalletListProperties.SelectedNamesAreKeptNames | src/logic/wallets/utils/walletList.ts:108-116 | the set of offered wallet names equals the set of supported (and, in the desktop app, desktop-capable) wallets |
| WalletListProperties.KeptNamesCount | src/logic/wallets/utils/walletList.ts:108-115 | the filter keeps one entry per kept wallet name |
| WalletListProperties.SelectionLength | src/logic/wallets/utils/walletList.ts:107-122 | length = number of kept catalog wallets + 1 if pairing is supported + 1 if the end-to-end wallet is injected |
| WalletListProperties.FilterNamesAreRestriction | src/logic/wallets/utils/walletList.ts:108-115 | when the filter's test agrees with membership in a set of names, the kept names are the input names restricted to that set, in order |
| WalletListProperties.SelectionIsRestrictedCatalogOrder | src/logic/wallets/utils/walletList.ts:108-116 | the offered wallets are exactly the catalog order restricted to the kept names |
| WalletListProperties.CatalogOrderOnDesktop | src/logic/wallets/utils/walletList.ts:35-97 | the catalog order restricted to the desktop wallets is WalletConnect, Trezor, Ledger, Fortmatic, Portis, Torus |
| WalletListProperties.CatalogOrderWithoutFortmatic | src/logic/wallets/utils/walletList.ts:35-97 | the catalog order restricted to every wallet but Fortmatic is the catalog with Fortmatic's slot removed |
| WalletListProperties.KeptNamesWithFortmaticDisabled | src/logic/wallets/utils/walletList.ts:100-115 | in the web app with "Fortmatic" disabled, when Fortmatic's module name, and no other, normalises like "Fortmatic", every wallet except Fortmatic is kept |
| WalletListProperties.FortmaticDisabledOnTheWeb | src/logic/wallets/utils/walletList.ts:107-122 | in the web app with "Fortmatic" disabled and nothing injected, when Fortmatic's module name, and no other, normalises like "Fortmatic", the list is the fifteen other catalog wallets in catalog order, all init descriptors |
| WalletListProperties.DesktopAppOffersDesktopWallets | src/logic/wallets/utils/walletList.ts:107-122 | in the desktop app with nothing disabled and nothing injected, the list is exactly the six desktop wallets in catalog order, all init descriptors |

## Left out

- RPC resolution is not modelled: `getChainById`, `getRpcServiceUrl` and the WalletConnect `rpc` map built from the chain cache. These are configuration lookups outside this model. The Trezor, Ledger, Keystone, Lattice and WalletLink entries carry the chain's RPC URL as the token `RpcUrl(chain)`, and the WalletConnect map is the token `RpcMap`.
- The custom-network descriptor (dummy genesis block and hardfork list) is the token `CustomNetwork(chain)`. Its `parseInt` of the chain id is library bookkeeping and is not modelled.
- The bridge URL, the Fortmatic and Portis API keys and the Ledger HID transport (`window.TransportNodeHid`) are opaque tokens. They have no behaviour here.
- `getPairingModule` and `getE2EWalletModule` are not part of this model. Their results are the tokens `Pairing(chain)` and `E2EWallet`, and `isPairingSupported()` is a boolean input.
- The string values of the `WALLETS` enum and `CHAIN_ID` come from `src/config/chain.d`, which is not part of this model.
  - The enum-to-string mapping is the parameter `moduleName`.
  - Rinkeby is its EIP-155 chain id, "4".
- The test runner's `env` lookup is a map from names to strings. The mnemonic counts as set when it is present and non-empty, which matches JavaScript truthiness for a string value. Non-string environment values are not modelled.
- The `some` in `isSupportedWallet` is a recursive function over the list. Its early exit has no observable effect, so it is not modelled.
- GetSupportedWallets: the in-place `push` onto the array returned by `map` is modelled as reassigning a local sequence. Nothing else holds that fresh array, so aliasing cannot be observed.
- Normalisation.ToLower: lower-cases the ASCII letters A–Z only. JavaScript `toLowerCase` also maps non-ASCII upper-case letters, so names with such letters may compare differently here.
- Normalisation.StripWhitespace: the whitespace class is the ECMAScript WhiteSpace and LineTerminator set as a fixed list of code points. Other Unicode space separators that newer Unicode versions might add are not followed.
