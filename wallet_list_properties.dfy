/**
 What the wallet selection promises: where the pairing and end-to-end modules
 sit, which catalog wallets are kept and in what order, how long the list is,
 and the matching rules of the disabled-wallet list.
 */
module WalletListProperties {
  import opened Normalisation
  import opened WalletList

  /** The wallet names of the init descriptors in a selected list, in order. */
  function InitNames(ms: seq<WalletModule>): seq<WalletName> {
    if ms == [] then []
    else (if ms[0].Init? then [ms[0].options.walletName] else []) + InitNames(ms[1..])
  }

  predicate Distinct<T(==)>(s: seq<T>) {
    forall i, j :: 0 <= i < j < |s| ==> s[i] != s[j]
  }

  /** `s` restricted to the elements of `keep`, in order. */
  function Only<T(==)>(s: seq<T>, keep: set<T>): seq<T> {
    if s == [] then []
    else if s[0] in keep then [s[0]] + Only(s[1..], keep)
    else Only(s[1..], keep)
  }

  /** The catalog wallets the selection should keep, stated without the filter:
      supported, and desktop-capable in the desktop app. */
  function KeptNames(rt: Runtime, moduleName: WalletName -> string): set<WalletName> {
    set k | k in CatalogOrder
              && IsSupportedWallet(rt.disabledWallets, moduleName(k))
              && (rt.isDesktop ==> k in DesktopWallets)
  }

  // ---------------------------------------------------------------------------
  // Matching against the disabled-wallet list

  /** Support is decided on the normal form of the name alone. */
  lemma SupportDependsOnNormalForm(disabled: seq<string>, name: string)
    ensures IsSupportedWallet(disabled, Normalise(name)) == IsSupportedWallet(disabled, name)
  {
    NormaliseIdempotent(name);
  }

  /** With an empty disabled list every name is supported. */
  lemma NothingDisabled(name: string)
    ensures IsSupportedWallet([], name)
  {
  }

  /** A name that differs from a disabled entry only in case and spacing is disabled. */
  lemma DisabledDespiteCaseAndSpacing(disabled: seq<string>, entry: string, name: string)
    requires entry in disabled
    requires Normalise(entry) == Normalise(name)
    ensures !IsSupportedWallet(disabled, name)
  {
    var i :| 0 <= i < |disabled| && disabled[i] == entry;
  }

  /** The configuration spelling "Wallet Connect" disables the module named "walletConnect". */
  lemma SpacedEntryDisablesWalletConnect()
    ensures !IsSupportedWallet(["Wallet Connect"], "walletConnect")
  {
    WalletConnectSpellingsAgree();
    DisabledDespiteCaseAndSpacing(["Wallet Connect"], "Wallet Connect", "walletConnect");
  }

  // ---------------------------------------------------------------------------
  // The catalog

  /** Every wallet-name member has an entry in the catalog. */
  lemma CatalogCoversEveryWallet(k: WalletName)
    ensures k in CatalogOrder
  {
    match k
    case Metamask => assert CatalogOrder[0] == k;
    case TallyHo => assert CatalogOrder[1] == k;
    case WalletConnect => assert CatalogOrder[2] == k;
    case Trezor => assert CatalogOrder[3] == k;
    case Ledger => assert CatalogOrder[4] == k;
    case Keystone => assert CatalogOrder[5] == k;
    case Trust => assert CatalogOrder[6] == k;
    case Lattice => assert CatalogOrder[7] == k;
    case Fortmatic => assert CatalogOrder[8] == k;
    case Portis => assert CatalogOrder[9] == k;
    case Authereum => assert CatalogOrder[10] == k;
    case Torus => assert CatalogOrder[11] == k;
    case Coinbase => assert CatalogOrder[12] == k;
    case WalletLink => assert CatalogOrder[13] == k;
    case Opera => assert CatalogOrder[14] == k;
    case OperaTouch => assert CatalogOrder[15] == k;
  }

  /** No wallet appears twice in the catalog. */
  lemma CatalogOrderDistinct()
    ensures Distinct(CatalogOrder)
  {

  }

  /** The catalog entry of wallet `k`, for any chain. */
  lemma CatalogEntry(chain: ChainId, k: WalletName) returns (j: nat)
    ensures j < |Catalog(chain)| && Catalog(chain)[j].walletName == k
    ensures Catalog(chain)[j].desktop <==> k in DesktopWallets
  {
    CatalogCoversEveryWallet(k);
    var cat := Catalog(chain);
    j :| 0 <= j < |CatalogOrder| && CatalogOrder[j] == k;
    assert Names(cat)[j] == k;
  }

  // ---------------------------------------------------------------------------
  // Sequence facts used below

  lemma {:induction false} InitNamesAppend(a: seq<WalletModule>, b: seq<WalletModule>)
    ensures InitNames(a + b) == InitNames(a) + InitNames(b)
  {
    if a == [] {
      assert a + b == b;
    } else {
      assert (a + b)[0] == a[0];
      assert (a + b)[1..] == a[1..] + b;
      InitNamesAppend(a[1..], b);
    }
  }

  /** Stripping `desktop` keeps the wallet names and their order. */
  lemma {:induction false} InitNamesOfStripped(ws: seq<Wallet>)
    ensures InitNames(StripDesktop(ws)) == Names(ws)
  {
    if ws != [] {
      assert StripDesktop(ws)[1..] == StripDesktop(ws[1..]);
      assert Names(ws) == [ws[0].walletName] + Names(ws[1..]);
      InitNamesOfStripped(ws[1..]);
    }
  }

  lemma {:induction false} SubsequenceOfNames(a: seq<Wallet>, b: seq<Wallet>)
    requires IsSubsequence(a, b)
    ensures IsSubsequence(Names(a), Names(b))
    decreases |b|
  {
    if a != [] {
      assert Names(b)[1..] == Names(b[1..]);
      if a[0] == b[0] && IsSubsequence(a[1..], b[1..]) {
        assert Names(a)[1..] == Names(a[1..]);
        SubsequenceOfNames(a[1..], b[1..]);
      } else {
        SubsequenceOfNames(a, b[1..]);
      }
    }
  }

  /** A subsequence of a sequence without repetitions has no repetitions. */
  lemma {:induction false} SubsequenceDistinct<T>(a: seq<T>, b: seq<T>)
    requires IsSubsequence(a, b) && Distinct(b)
    ensures Distinct(a)
    ensures forall x :: x in a ==> x in b
    decreases |b|
  {
    if a != [] {
      if a[0] == b[0] && IsSubsequence(a[1..], b[1..]) {
        SubsequenceDistinct(a[1..], b[1..]);
        assert forall j :: 0 < j < |a| ==> a[j] in b[1..];
      } else {
        SubsequenceDistinct(a, b[1..]);
      }
    }
  }

  /** A sequence without repetitions has as many elements as its set of elements. */
  lemma {:induction false} DistinctCardinality<T>(s: seq<T>)
    requires Distinct(s)
    ensures |set x | x in s| == |s|
  {
    if s != [] {
      var rest := set x | x in s[1..];
      DistinctCardinality(s[1..]);
      assert s[0] !in rest;
      assert (set x | x in s) == {s[0]} + rest;
    }
  }

  /** The init descriptors of the selection, by name, are the kept catalog wallets. */
  lemma InitNamesOfSelection(chain: ChainId, rt: Runtime, moduleName: WalletName -> string)
    ensures InitNames(SupportedWallets(chain, rt, moduleName))
            == Names(FilterSupported(Catalog(chain), rt.disabledWallets, rt.isDesktop, moduleName))
  {
    var kept := StripDesktop(FilterSupported(Catalog(chain), rt.disabledWallets, rt.isDesktop, moduleName));
    InitNamesOfStripped(FilterSupported(Catalog(chain), rt.disabledWallets, rt.isDesktop, moduleName));
    var withE2E := if E2EInjected(chain, rt.cypress) then kept + [E2EWallet] else kept;
    if E2EInjected(chain, rt.cypress) {
      InitNamesAppend(kept, [E2EWallet]);
    }
    if rt.pairingSupported {
      InitNamesAppend([Pairing(chain)], withE2E);
    }
  }

  // ---------------------------------------------------------------------------
  // The selected list

  /** With pairing supported, the pairing module for the chain comes first and the
      rest is the list that would be selected without pairing; without it, no
      pairing module appears at all. */
  lemma PairingComesFirst(chain: ChainId, rt: Runtime, moduleName: WalletName -> string)
    ensures rt.pairingSupported ==>
              var r := SupportedWallets(chain, rt, moduleName);
              |r| > 0 && r[0] == Pairing(chain)
              && r[1..] == SupportedWallets(chain, rt.(pairingSupported := false), moduleName)
    ensures forall i :: 0 <= i < |SupportedWallets(chain, rt, moduleName)| ==>
              (SupportedWallets(chain, rt, moduleName)[i].Pairing? <==> rt.pairingSupported && i == 0)
  {
    var r := SupportedWallets(chain, rt, moduleName);
    var kept := StripDesktop(FilterSupported(Catalog(chain), rt.disabledWallets, rt.isDesktop, moduleName));
    var withE2E := if E2EInjected(chain, rt.cypress) then kept + [E2EWallet] else kept;
    assert forall i :: 0 <= i < |withE2E| ==> !withE2E[i].Pairing?;
    if rt.pairingSupported {
      assert r == [Pairing(chain)] + withE2E;
      assert r[1..] == withE2E;
    }
  }

  /** The push changes nothing but the end: the selection is the one made without
      the test runner, followed by the end-to-end wallet when it is injected. */
  lemma PushOnlyAppends(chain: ChainId, rt: Runtime, moduleName: WalletName -> string)
    ensures SupportedWallets(chain, rt, moduleName)
            == SupportedWallets(chain, rt.(cypress := None), moduleName)
               + (if E2EInjected(chain, rt.cypress) then [E2EWallet] else [])
  {
    var kept := StripDesktop(FilterSupported(Catalog(chain), rt.disabledWallets, rt.isDesktop, moduleName));
    var withE2E := if E2EInjected(chain, rt.cypress) then kept + [E2EWallet] else kept;
    assert SupportedWallets(chain, rt.(cypress := None), moduleName)
        == if rt.pairingSupported then [Pairing(chain)] + kept else kept;
  }

  /** The end-to-end wallet is in the list exactly when its three conditions hold,
      and then it is the last element and appears once; everything before it is
      the list selected without the test runner. */
  lemma E2EWalletComesLast(chain: ChainId, rt: Runtime, moduleName: WalletName -> string)
    ensures E2EWallet in SupportedWallets(chain, rt, moduleName) <==> E2EInjected(chain, rt.cypress)
    ensures E2EInjected(chain, rt.cypress) ==>
              var r := SupportedWallets(chain, rt, moduleName);
              r[|r| - 1] == E2EWallet && forall i :: 0 <= i < |r| - 1 ==> r[i] != E2EWallet
    ensures SupportedWallets(chain, rt, moduleName)
            == SupportedWallets(chain, rt.(cypress := None), moduleName)
               + (if E2EInjected(chain, rt.cypress) then [E2EWallet] else [])
  {
    PushOnlyAppends(chain, rt, moduleName);
    var r := SupportedWallets(chain, rt, moduleName);
    var kept := StripDesktop(FilterSupported(Catalog(chain), rt.disabledWallets, rt.isDesktop, moduleName));
    assert E2EWallet !in kept by {
      forall i | 0 <= i < |kept| ensures kept[i] != E2EWallet {
        assert kept[i].Init?;
      }
    }
  }

  lemma KeptIsSelected(chain: ChainId, rt: Runtime, moduleName: WalletName -> string, k: WalletName)
    requires IsSupportedWallet(rt.disabledWallets, moduleName(k)) && (rt.isDesktop ==> k in DesktopWallets)
    ensures k in Names(FilterSupported(Catalog(chain), rt.disabledWallets, rt.isDesktop, moduleName))
  {
    var cat := Catalog(chain);
    var kept := FilterSupported(cat, rt.disabledWallets, rt.isDesktop, moduleName);
    var j := CatalogEntry(chain, k);
    assert Keep(cat[j], rt.disabledWallets, rt.isDesktop, moduleName);
    assert cat[j] in cat;
    assert cat[j] in kept;
    var i :| 0 <= i < |kept| && kept[i] == cat[j];
    assert Names(kept)[i] == k;
  }

  lemma SelectedIsKept(chain: ChainId, rt: Runtime, moduleName: WalletName -> string, k: WalletName)
    requires k in Names(FilterSupported(Catalog(chain), rt.disabledWallets, rt.isDesktop, moduleName))
    ensures IsSupportedWallet(rt.disabledWallets, moduleName(k)) && (rt.isDesktop ==> k in DesktopWallets)
  {
    var cat := Catalog(chain);
    var kept := FilterSupported(cat, rt.disabledWallets, rt.isDesktop, moduleName);
    var i :| 0 <= i < |kept| && Names(kept)[i] == k;
    assert kept[i] in kept;
    var i' :| 0 <= i' < |cat| && cat[i'] == kept[i];
    assert Keep(kept[i], rt.disabledWallets, rt.isDesktop, moduleName);
  }

  /** A wallet of the catalog is selected exactly when it is supported and, in the
      desktop app, supports the desktop app. */
  lemma SelectedExactlyWhenKept(chain: ChainId, rt: Runtime, moduleName: WalletName -> string, k: WalletName)
    ensures k in InitNames(SupportedWallets(chain, rt, moduleName))
            <==> IsSupportedWallet(rt.disabledWallets, moduleName(k)) && (rt.isDesktop ==> k in DesktopWallets)
  {
    InitNamesOfSelection(chain, rt, moduleName);
    if IsSupportedWallet(rt.disabledWallets, moduleName(k)) && (rt.isDesktop ==> k in DesktopWallets) {
      KeptIsSelected(chain, rt, moduleName, k);
    }
    if k in Names(FilterSupported(Catalog(chain), rt.disabledWallets, rt.isDesktop, moduleName)) {
      SelectedIsKept(chain, rt, moduleName, k);
    }
  }

  /** The selected wallets appear in catalog order, each at most once. */
  lemma SelectedInCatalogOrder(chain: ChainId, rt: Runtime, moduleName: WalletName -> string)
    ensures IsSubsequence(InitNames(SupportedWallets(chain, rt, moduleName)), CatalogOrder)
    ensures Distinct(InitNames(SupportedWallets(chain, rt, moduleName)))
  {
    var cat := Catalog(chain);
    var kept := FilterSupported(cat, rt.disabledWallets, rt.isDesktop, moduleName);
    InitNamesOfSelection(chain, rt, moduleName);
    SubsequenceOfNames(kept, cat);
    CatalogOrderDistinct();
    SubsequenceDistinct(Names(kept), CatalogOrder);
  }

  /** The names of the selected init descriptors are exactly `KeptNames`. */
  lemma SelectedNamesAreKeptNames(chain: ChainId, rt: Runtime, moduleName: WalletName -> string)
    ensures (set k | k in InitNames(SupportedWallets(chain, rt, moduleName))) == KeptNames(rt, moduleName)
  {
    var present := set k | k in InitNames(SupportedWallets(chain, rt, moduleName));
    var kept := KeptNames(rt, moduleName);
    forall k ensures k in present <==> k in kept {
      SelectedExactlyWhenKept(chain, rt, moduleName, k);
      CatalogCoversEveryWallet(k);
    }
  }

  /** The filter keeps one catalog entry per name of `KeptNames`. */
  lemma KeptNamesCount(chain: ChainId, rt: Runtime, moduleName: WalletName -> string)
    ensures |KeptNames(rt, moduleName)|
            == |FilterSupported(Catalog(chain), rt.disabledWallets, rt.isDesktop, moduleName)|
  {
    SelectedNamesAreKeptNames(chain, rt, moduleName);
    assert |set k | k in InitNames(SupportedWallets(chain, rt, moduleName))|
        == |FilterSupported(Catalog(chain), rt.disabledWallets, rt.isDesktop, moduleName)| by {
      InitNamesOfSelection(chain, rt, moduleName);
      SelectedInCatalogOrder(chain, rt, moduleName);
      DistinctCardinality(InitNames(SupportedWallets(chain, rt, moduleName)));
    }
  }

  /** The list holds one entry per kept catalog wallet, plus one for each injected module. */
  lemma SelectionLength(chain: ChainId, rt: Runtime, moduleName: WalletName -> string)
    ensures |SupportedWallets(chain, rt, moduleName)|
            == |KeptNames(rt, moduleName)|
               + (if rt.pairingSupported then 1 else 0)
               + (if E2EInjected(chain, rt.cypress) then 1 else 0)
  {
    KeptNamesCount(chain, rt, moduleName);
  }

  lemma NamesCons(w: Wallet, ws: seq<Wallet>)
    ensures Names([w] + ws) == [w.walletName] + Names(ws)
  {
    assert forall i :: 0 <= i < |ws| ==> ([w] + ws)[i + 1] == ws[i];
  }

  lemma {:induction false} FilterNamesAreRestriction(
    ws: seq<Wallet>, disabled: seq<string>, isDesktop: bool, moduleName: WalletName -> string, keep: set<WalletName>)
    requires forall i :: 0 <= i < |ws| ==> (Keep(ws[i], disabled, isDesktop, moduleName) <==> ws[i].walletName in keep)
    ensures Names(FilterSupported(ws, disabled, isDesktop, moduleName)) == Only(Names(ws), keep)
  {
    if ws != [] {
      var tail := ws[1..];
      assert forall i :: 0 <= i < |tail| ==>
               (Keep(tail[i], disabled, isDesktop, moduleName) <==> tail[i].walletName in keep) by {
        forall i | 0 <= i < |tail| ensures tail[i] == ws[i + 1] {
        }
      }
      FilterNamesAreRestriction(tail, disabled, isDesktop, moduleName, keep);
      assert Names(ws) == [ws[0].walletName] + Names(tail) by {
        assert ws == [ws[0]] + tail;
        NamesCons(ws[0], tail);
      }
      if Keep(ws[0], disabled, isDesktop, moduleName) {
        NamesCons(ws[0], FilterSupported(tail, disabled, isDesktop, moduleName));
      }
    }
  }

  /** The selected init descriptors are, by name, the catalog order restricted to
      `KeptNames`: exactly the kept wallets, each once, in catalog order. */
  lemma SelectionIsRestrictedCatalogOrder(chain: ChainId, rt: Runtime, moduleName: WalletName -> string)
    ensures InitNames(SupportedWallets(chain, rt, moduleName)) == Only(CatalogOrder, KeptNames(rt, moduleName))
  {
    var cat := Catalog(chain);
    InitNamesOfSelection(chain, rt, moduleName);
    forall i | 0 <= i < |cat|
      ensures Keep(cat[i], rt.disabledWallets, rt.isDesktop, moduleName) <==> cat[i].walletName in KeptNames(rt, moduleName)
    {
      CatalogCoversEveryWallet(cat[i].walletName);
    }
    FilterNamesAreRestriction(cat, rt.disabledWallets, rt.isDesktop, moduleName, KeptNames(rt, moduleName));
  }

  // ---------------------------------------------------------------------------
  // Worked examples

  lemma {:induction false} OnlyAppend<X>(a: seq<X>, b: seq<X>, keep: set<X>)
    ensures Only(a + b, keep) == Only(a, keep) + Only(b, keep)
  {
    if a == [] {
      assert a + b == b;
    } else {
      assert (a + b)[0] == a[0];
      assert (a + b)[1..] == a[1..] + b;
      OnlyAppend(a[1..], b, keep);
    }
  }

  /** The catalog order restricted to a set, computed a third of the catalog at a time. */
  lemma CatalogOrderRestricted(keep: set<WalletName>, first: seq<WalletName>, second: seq<WalletName>, third: seq<WalletName>)
    requires Only(CatalogHead, keep) == first
    requires Only(CatalogMiddle, keep) == second
    requires Only(CatalogTail, keep) == third
    ensures Only(CatalogOrder, keep) == first + second + third
  {
    assert CatalogOrder == CatalogHead + (CatalogMiddle + CatalogTail);
    OnlyAppend(CatalogHead, CatalogMiddle + CatalogTail, keep);
    OnlyAppend(CatalogMiddle, CatalogTail, keep);
  }

  const CatalogHead: seq<WalletName> := [Metamask, TallyHo, WalletConnect, Trezor, Ledger, Keystone]
  const CatalogMiddle: seq<WalletName> := [Trust, Lattice, Fortmatic, Portis, Authereum]
  const CatalogTail: seq<WalletName> := [Torus, Coinbase, WalletLink, Opera, OperaTouch]

  lemma DesktopHead()
    ensures Only(CatalogHead, DesktopWallets) == [WalletConnect, Trezor, Ledger]
  {}

  lemma DesktopMiddle()
    ensures Only(CatalogMiddle, DesktopWallets) == [Fortmatic, Portis]
  {}

  lemma DesktopTail()
    ensures Only(CatalogTail, DesktopWallets) == [Torus]
  {}

  lemma {:induction false} OnlyKeepsAll<X>(s: seq<X>, keep: set<X>)
    requires forall i :: 0 <= i < |s| ==> s[i] in keep
    ensures Only(s, keep) == s
  {
    if s != [] {
      assert forall i :: 0 <= i < |s[1..]| ==> s[1..][i] == s[i + 1];
      OnlyKeepsAll(s[1..], keep);
    }
  }

  /** Restricting a sequence without repetitions to all its elements but the one at
      `j` removes exactly that slot. */
  lemma OnlyAllBut<X>(s: seq<X>, j: nat, keep: set<X>)
    requires j < |s| && Distinct(s)
    requires forall x :: x in keep <==> x != s[j]
    ensures Only(s, keep) == s[..j] + s[j + 1..]
  {
    assert s == s[..j] + [s[j]] + s[j + 1..];
    OnlyKeepsAll(s[..j], keep);
    OnlyKeepsAll(s[j + 1..], keep);
    OnlyAppend(s[..j] + [s[j]], s[j + 1..], keep);
    OnlyAppend(s[..j], [s[j]], keep);
  }

  lemma CatalogOrderOnDesktop()
    ensures Only(CatalogOrder, DesktopWallets) == [WalletConnect, Trezor, Ledger, Fortmatic, Portis, Torus]
  {
    DesktopHead();
    DesktopMiddle();
    DesktopTail();
    CatalogOrderRestricted(DesktopWallets, [WalletConnect, Trezor, Ledger], [Fortmatic, Portis], [Torus]);
  }

  lemma CatalogOrderWithoutFortmatic(keep: set<WalletName>)
    requires forall k :: k in keep <==> k != Fortmatic
    ensures Only(CatalogOrder, keep) == CatalogOrder[..8] + CatalogOrder[9..]
  {
    CatalogOrderDistinct();
    assert CatalogOrder[8] == Fortmatic;
    OnlyAllBut(CatalogOrder, 8, keep);
  }

  /** With one disabled entry, a name is supported exactly when its normal form differs from the entry's. */
  lemma SupportedAgainstOneEntry(entry: string, name: string)
    ensures IsSupportedWallet([entry], name) <==> Normalise(entry) != Normalise(name)
  {
    assert [entry][0] == entry;
  }

  lemma KeptNamesWithFortmaticDisabled(moduleName: WalletName -> string)
    requires Normalise(moduleName(Fortmatic)) == Normalise("Fortmatic")
    requires forall k :: k != Fortmatic ==> Normalise(moduleName(k)) != Normalise("Fortmatic")
    ensures forall k :: k in KeptNames(Runtime(["Fortmatic"], false, None, false), moduleName) <==> k != Fortmatic
  {
    forall k ensures k in KeptNames(Runtime(["Fortmatic"], false, None, false), moduleName) <==> k != Fortmatic {
      CatalogCoversEveryWallet(k);
      SupportedAgainstOneEntry("Fortmatic", moduleName(k));
    }
  }

  /** In the web app, with "Fortmatic" disabled (and no other wallet whose module name
      normalises like it), every other wallet is offered, in catalog order, and
      nothing else: no test runner and no pairing means no injected module. */
  lemma FortmaticDisabledOnTheWeb(chain: ChainId, moduleName: WalletName -> string)
    requires Normalise(moduleName(Fortmatic)) == Normalise("Fortmatic")
    requires forall k :: k != Fortmatic ==> Normalise(moduleName(k)) != Normalise("Fortmatic")
    ensures var r := SupportedWallets(chain, Runtime(["Fortmatic"], false, None, false), moduleName);
            && InitNames(r) == CatalogOrder[..8] + CatalogOrder[9..]
            && forall i :: 0 <= i < |r| ==> r[i].Init?
  {
    var rt := Runtime(["Fortmatic"], false, None, false);
    KeptNamesWithFortmaticDisabled(moduleName);
    CatalogOrderWithoutFortmatic(KeptNames(rt, moduleName));
    SelectionIsRestrictedCatalogOrder(chain, rt, moduleName);
  }

  /** In the desktop app, with nothing disabled and no injected module, exactly the
      six desktop wallets are offered, in catalog order. */
  lemma DesktopAppOffersDesktopWallets(chain: ChainId, moduleName: WalletName -> string)
    ensures var r := SupportedWallets(chain, Runtime([], true, None, false), moduleName);
            && InitNames(r) == [WalletConnect, Trezor, Ledger, Fortmatic, Portis, Torus]
            && forall i :: 0 <= i < |r| ==> r[i].Init?
  {
    var rt := Runtime([], true, None, false);
    forall k ensures k in KeptNames(rt, moduleName) <==> k in DesktopWallets {
      CatalogCoversEveryWallet(k);
    }
    assert KeptNames(rt, moduleName) == DesktopWallets;
    CatalogOrderOnDesktop();
    SelectionIsRestrictedCatalogOrder(chain, rt, moduleName);
  }
}
