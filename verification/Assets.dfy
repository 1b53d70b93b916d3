/** Stellar asset identities: canonical form, canonical id, and the descriptor
    syntax of the price provider. */
module Assets {
  import opened Wrappers
  import opened Text
  import opened Strkey

  const NATIVE := "native"
  const CLASSIC := "classic"
  const CONTRACT := "contract"

  datatype AssetIdentity = AssetIdentity(kind: string, code: string, issuer: string, contractId: string)

  datatype IdentityError =
    | NativeWithFields | ClassicWithContract | BadCode | BadIssuer
    | ContractWithFields | BadContract | UnsupportedKind

  predicate Alphanumeric(c: char) {
    'a' <= c <= 'z' || 'A' <= c <= 'Z' || '0' <= c <= '9'
  }

  predicate ValidAssetCode(code: string) {
    1 <= |code| <= 12 && forall i :: 0 <= i < |code| ==> Alphanumeric(code[i])
  }

  /** What a complete identity looks like, whatever produced it. */
  predicate IsCanonical(codec: Codec, a: AssetIdentity) {
    match a
    case AssetIdentity(kind, code, issuer, contractId) =>
      || (kind == NATIVE && code == "" && issuer == "" && contractId == "")
      || (kind == CLASSIC && contractId == "" && ValidAssetCode(code) && ValidKey(codec, AccountId, issuer))
      || (kind == CONTRACT && code == "" && issuer == "" && ValidKey(codec, Contract, contractId))
  }

  /** White space around fields goes; kinds are lower case, keys upper case. */
  function Normalize(asset: AssetIdentity): AssetIdentity {
    AssetIdentity(
      Lower(TrimSpace(asset.kind)), TrimSpace(asset.code),
      Upper(TrimSpace(asset.issuer)), Upper(TrimSpace(asset.contractId)))
  }

  function Check(codec: Codec, a: AssetIdentity): (r: Result<AssetIdentity, IdentityError>)
    ensures r.Ok? ==> r.value == a && IsCanonical(codec, a)
  {
    if a.kind == NATIVE then
      if a.code != "" || a.issuer != "" || a.contractId != "" then Err(NativeWithFields) else Ok(a)
    else if a.kind == CLASSIC then
      if a.contractId != "" then Err(ClassicWithContract)
      else if !ValidAssetCode(a.code) then Err(BadCode)
      else if !ValidKey(codec, AccountId, a.issuer) then Err(BadIssuer)
      else Ok(a)
    else if a.kind == CONTRACT then
      if a.code != "" || a.issuer != "" then Err(ContractWithFields)
      else if !ValidKey(codec, Contract, a.contractId) then Err(BadContract)
      else Ok(a)
    else Err(UnsupportedKind)
  }

  function Canonicalize(codec: Codec, asset: AssetIdentity): (r: Result<AssetIdentity, IdentityError>)
    ensures r.Ok? ==> IsCanonical(codec, r.value)
  {
    Check(codec, Normalize(asset))
  }

  lemma StrkeyFixed(codec: Codec, v: Version, s: string)
    requires Lawful(codec) && Decodes(codec, v, s)
    ensures TrimSpace(s) == s && Upper(s) == s
    ensures Free(s, '-') && Free(s, ':') && Free(s, '|')
  {
    assert forall i :: 0 <= i < |s| ==> Base32(s[i]);
    TrimFixed(s);
  }

  lemma CodeFixed(code: string)
    requires ValidAssetCode(code)
    ensures TrimSpace(code) == code && Free(code, '-') && Free(code, ':')
  {
    TrimFixed(code);
  }

  lemma KindFixed(kind: string)
    requires kind in {NATIVE, CLASSIC, CONTRACT}
    ensures Lower(TrimSpace(kind)) == kind
  {
    TrimFixed(kind);
    assert Lower(NATIVE) == NATIVE && Lower(CLASSIC) == CLASSIC && Lower(CONTRACT) == CONTRACT;
  }

  lemma ClassicIsFixed(codec: Codec, a: AssetIdentity)
    requires Lawful(codec) && IsCanonical(codec, a) && a.kind == CLASSIC
    ensures Canonicalize(codec, a) == Ok(a)
  {
    KindFixed(a.kind);
    CodeFixed(a.code);
    StrkeyFixed(codec, AccountId, a.issuer);
  }

  lemma ContractIsFixed(codec: Codec, a: AssetIdentity)
    requires Lawful(codec) && IsCanonical(codec, a) && a.kind == CONTRACT
    ensures Canonicalize(codec, a) == Ok(a)
  {
    KindFixed(a.kind);
    StrkeyFixed(codec, Contract, a.contractId);
  }

  lemma NativeIsFixed(codec: Codec, a: AssetIdentity)
    requires IsCanonical(codec, a) && a.kind == NATIVE
    ensures Canonicalize(codec, a) == Ok(a)
  {
    KindFixed(a.kind);
  }

  /** Canonicalisation leaves exactly the canonical identities alone. */
  lemma CanonicalIsFixed(codec: Codec, a: AssetIdentity)
    requires Lawful(codec)
    ensures Canonicalize(codec, a) == Ok(a) <==> IsCanonical(codec, a)
  {
    if IsCanonical(codec, a) {
      if a.kind == CLASSIC {
        ClassicIsFixed(codec, a);
      } else if a.kind == CONTRACT {
        ContractIsFixed(codec, a);
      } else {
        NativeIsFixed(codec, a);
      }
    }
  }

  /** Canonicalising twice is canonicalising once, on every input. */
  lemma CanonicalizeIdempotent(codec: Codec, a: AssetIdentity)
    requires Lawful(codec)
    ensures Canonicalize(codec, a).Ok? ==>
              Canonicalize(codec, Canonicalize(codec, a).value) == Canonicalize(codec, a)
  {
    if Canonicalize(codec, a).Ok? {
      CanonicalIsFixed(codec, Canonicalize(codec, a).value);
    }
  }

  /** Blanks around a field make no difference. */
  lemma CanonicalizeIgnoresBlanks(codec: Codec, a: AssetIdentity, b: AssetIdentity, pre: string, post: string)
    requires Blank(pre) && Blank(post)
    requires b.kind == pre + a.kind + post && b.code == pre + a.code + post
    requires b.issuer == pre + a.issuer + post && b.contractId == pre + a.contractId + post
    ensures Canonicalize(codec, b) == Canonicalize(codec, a)
  {
    assert Normalize(b) == Normalize(a) by {
      TrimPad(pre, a.kind, post);
      TrimPad(pre, a.code, post);
      TrimPad(pre, a.issuer, post);
      TrimPad(pre, a.contractId, post);
    }
  }

  /** Nor does the case of a kind or of a key; the case of a code does. */
  lemma CanonicalizeIgnoresCase(codec: Codec, a: AssetIdentity, b: AssetIdentity)
    requires SameLetters(a.kind, b.kind) && a.code == b.code
    requires SameLetters(a.issuer, b.issuer) && SameLetters(a.contractId, b.contractId)
    ensures Canonicalize(codec, a) == Canonicalize(codec, b)
  {
    assert Normalize(a) == Normalize(b) by {
      LowerTrimSame(a.kind, b.kind);
      UpperTrimSame(a.issuer, b.issuer);
      UpperTrimSame(a.contractId, b.contractId);
    }
  }

  lemma LowerTrimSame(s: string, t: string)
    requires SameLetters(s, t)
    ensures Lower(TrimSpace(s)) == Lower(TrimSpace(t))
  {
    TrimSame(s, t);
    LowerSame(TrimSpace(s), TrimSpace(t));
  }

  lemma UpperTrimSame(s: string, t: string)
    requires SameLetters(s, t)
    ensures Upper(TrimSpace(s)) == Upper(TrimSpace(t))
  {
    TrimSame(s, t);
    UpperSame(TrimSpace(s), TrimSpace(t));
  }

  predicate LetterOrDigit(c: char) { 'a' <= c <= 'z' || 'A' <= c <= 'Z' || '0' <= c <= '9' }

  ghost predicate Names32Bytes(codec: Codec, v: Version, key: string) {
    exists payload :: codec.decode(v, key) == Some(payload) && |payload| == 32
  }

  /** What is accepted as it stands: the native asset; a classic asset with a code of one to twelve
      letters and digits and an account for its issuer; and a contract. */
  lemma AcceptedAsIs(codec: Codec, code: string, issuer: string, contractId: string)
    requires Lawful(codec)
    ensures var native := AssetIdentity("native", "", "", ""); Canonicalize(codec, native) == Ok(native)
    ensures var classic := AssetIdentity("classic", code, issuer, "");
            Canonicalize(codec, classic) == Ok(classic) <==>
              && 1 <= |code| <= 12 && (forall i :: 0 <= i < |code| ==> LetterOrDigit(code[i]))
              && Names32Bytes(codec, AccountId, issuer)
    ensures var contract := AssetIdentity("contract", "", "", contractId);
            Canonicalize(codec, contract) == Ok(contract) <==> Names32Bytes(codec, Contract, contractId)
  {
    NativeIsFixed(codec, AssetIdentity("native", "", "", ""));
    ClassicAccepted(codec, code, issuer);
    ContractAccepted(codec, contractId);
  }

  lemma ClassicAccepted(codec: Codec, code: string, issuer: string)
    requires Lawful(codec)
    ensures var classic := AssetIdentity("classic", code, issuer, "");
            Canonicalize(codec, classic) == Ok(classic) <==>
              && 1 <= |code| <= 12 && (forall i :: 0 <= i < |code| ==> LetterOrDigit(code[i]))
              && Names32Bytes(codec, AccountId, issuer)
  {
    CanonicalIsFixed(codec, AssetIdentity("classic", code, issuer, ""));
    assert ValidKey(codec, AccountId, issuer) <==> Names32Bytes(codec, AccountId, issuer);
  }

  lemma ContractAccepted(codec: Codec, contractId: string)
    requires Lawful(codec)
    ensures var contract := AssetIdentity("contract", "", "", contractId);
            Canonicalize(codec, contract) == Ok(contract) <==> Names32Bytes(codec, Contract, contractId)
  {
    CanonicalIsFixed(codec, AssetIdentity("contract", "", "", contractId));
    assert ValidKey(codec, Contract, contractId) <==> Names32Bytes(codec, Contract, contractId);
  }

  function CanonicalID(a: AssetIdentity): string {
    if a.kind == NATIVE then "native"
    else if a.kind == CLASSIC then "classic:" + a.code + ":" + a.issuer
    else if a.kind == CONTRACT then "contract:" + a.contractId
    else ""
  }

  /** How canonical ids are spelled. */
  lemma CanonicalIDSpelled(codec: Codec, a: AssetIdentity)
    requires Lawful(codec) && IsCanonical(codec, a)
    ensures a.kind == "native" ==> CanonicalID(a) == "native"
    ensures a.kind == "classic" ==> Split(CanonicalID(a), ':') == ["classic", a.code, a.issuer]
    ensures a.kind == "contract" ==> Split(CanonicalID(a), ':') == ["contract", a.contractId]
  {
    if a.kind == CLASSIC {
      CodeFixed(a.code);
      StrkeyFixed(codec, AccountId, a.issuer);
      ClassicIDSpelled(a.code, a.issuer);
    } else if a.kind == CONTRACT {
      StrkeyFixed(codec, Contract, a.contractId);
      ContractIDSpelled(a.contractId);
    }
  }

  lemma ClassicIDSpelled(code: string, issuer: string)
    requires Free(code, ':') && Free(issuer, ':')
    ensures Split("classic:" + code + ":" + issuer, ':') == ["classic", code, issuer]
  {
    var kind := "classic";
    assert "classic:" == kind + ":";
    SplitThree(kind, ':', code, issuer);
    SplitWhole(issuer, ':');
  }

  lemma ContractIDSpelled(contractId: string)
    requires Free(contractId, ':')
    ensures Split("contract:" + contractId, ':') == ["contract", contractId]
  {
    var kind := "contract";
    assert "contract:" == kind + ":";
    SplitTwo(kind, ':', contractId);
  }

  /** Distinct canonical identities never share a canonical id. */
  lemma CanonicalIDInjective(codec: Codec, a: AssetIdentity, b: AssetIdentity)
    requires Lawful(codec) && IsCanonical(codec, a) && IsCanonical(codec, b)
    ensures CanonicalID(a) == CanonicalID(b) <==> a == b
  {
    if CanonicalID(a) == CanonicalID(b) {
      assert CanonicalID(a)[0] == 'n' <==> a.kind == NATIVE;
      assert CanonicalID(a)[1] == 'l' <==> a.kind == CLASSIC;
      assert CanonicalID(b)[0] == 'n' <==> b.kind == NATIVE;
      assert CanonicalID(b)[1] == 'l' <==> b.kind == CLASSIC;
      if a.kind == CLASSIC {
        CodeFixed(a.code);
        CodeFixed(b.code);
        assert CanonicalID(a)[8..] == a.code + ":" + a.issuer;
        assert CanonicalID(b)[8..] == b.code + ":" + b.issuer;
        CutUnique(a.code, ':', a.issuer, b.code, b.issuer);
      } else if a.kind == CONTRACT {
        assert CanonicalID(a)[9..] == a.contractId;
        assert CanonicalID(b)[9..] == b.contractId;
      }
    }
  }

  function TypeCode(code: string): Option<string> {
    if 1 <= |code| <= 4 then Some("1")
    else if 5 <= |code| <= 12 then Some("2")
    else None
  }

  /** stellarExpertAssetID: the provider's name for a native or classic asset. */
  function ProviderID(a: AssetIdentity): Option<string> {
    if a.kind == NATIVE then Some("XLM")
    else if a.kind == CLASSIC && TypeCode(a.code).Some? then
      Some(a.code + "-" + a.issuer + "-" + TypeCode(a.code).value)
    else None
  }

  function FromParts(codec: Codec, parts: seq<string>): (r: Option<AssetIdentity>)
    ensures r.Some? ==> IsCanonical(codec, r.value) && r.value.kind == CLASSIC
  {
    if |parts| != 3 then None
    else
      match Canonicalize(codec, AssetIdentity(CLASSIC, parts[0], parts[1], ""))
      case Err(_) => None
      case Ok(asset) =>
        assert asset.kind == Lower(TrimSpace(CLASSIC)) == CLASSIC by { TrimFixed(CLASSIC); }
        if TypeCode(asset.code) == Some(parts[2]) then Some(asset) else None
  }

  /** parseStellarExpertAssetID. */
  function ParseDescriptor(codec: Codec, descriptor: string): (r: Option<AssetIdentity>)
    ensures r.Some? ==> IsCanonical(codec, r.value) && r.value.kind != CONTRACT
  {
    var d := TrimSpace(descriptor);
    if d == "XLM" then Some(AssetIdentity(NATIVE, "", "", "")) else FromParts(codec, Split(d, '-'))
  }

  lemma ProviderIDParts(codec: Codec, a: AssetIdentity)
    requires Lawful(codec) && IsCanonical(codec, a) && a.kind == CLASSIC
    ensures ProviderID(a).Some?
    ensures Split(ProviderID(a).value, '-') == [a.code, a.issuer, TypeCode(a.code).value]
  {
    CodeFixed(a.code);
    StrkeyFixed(codec, AccountId, a.issuer);
    var t := TypeCode(a.code).value;
    SplitWhole(t, '-');
    SplitAt(a.issuer, '-', t);
    SplitAt(a.code, '-', a.issuer + "-" + t);
    assert ProviderID(a).value == a.code + "-" + (a.issuer + "-" + t);
    assert [a.code] + ([a.issuer] + [t]) == [a.code, a.issuer, t];
  }

  lemma ProviderIDTrimmed(a: AssetIdentity)
    requires a.kind == CLASSIC && ValidAssetCode(a.code)
    ensures ProviderID(a).Some? && TrimSpace(ProviderID(a).value) == ProviderID(a).value
  {
    var d := ProviderID(a).value;
    assert d[0] == a.code[0] && Alphanumeric(d[0]);
    assert d[|d| - 1] == TypeCode(a.code).value[0];
    TrimFixed(d);
  }

  lemma PartsParse(codec: Codec, a: AssetIdentity)
    requires Lawful(codec) && IsCanonical(codec, a) && a.kind == CLASSIC
    ensures FromParts(codec, [a.code, a.issuer, TypeCode(a.code).value]) == Some(a)
  {
    CanonicalIsFixed(codec, a);
    assert a == AssetIdentity(CLASSIC, a.code, a.issuer, "");
  }

  /** Every asset the provider can price survives printing and parsing. */
  lemma PrintThenParse(codec: Codec, a: AssetIdentity)
    requires Lawful(codec) && IsCanonical(codec, a) && a.kind != CONTRACT
    ensures ProviderID(a).Some?
    ensures ParseDescriptor(codec, ProviderID(a).value) == Some(a)
  {
    if a.kind == CLASSIC {
      ProviderIDParts(codec, a);
      ProviderIDTrimmed(a);
      PartsParse(codec, a);
      SplitWhole("XLM", '-');
    } else {
      TrimFixed("XLM");
    }
  }

  lemma {:induction false} JoinThree(s: string, sep: char)
    requires |Split(s, sep)| <= 3
    ensures var p := Split(s, sep);
            s == (if |p| == 1 then p[0]
                  else if |p| == 2 then p[0] + [sep] + p[1]
                  else p[0] + [sep] + p[1] + [sep] + p[2])
  {
    if s != "" {
      assert s == [s[0]] + s[1..];
      JoinThree(s[1..], sep);
    }
  }

  /** A descriptor already in canonical spelling: nothing for the parser to trim or raise. */
  predicate Normalized(d: string) {
    && TrimSpace(d) == d
    && (d == "XLM" || (|Split(d, '-')| == 3
                       && TrimSpace(Split(d, '-')[0]) == Split(d, '-')[0]
                       && Upper(TrimSpace(Split(d, '-')[1])) == Split(d, '-')[1]))
  }

  /** How the provider names an asset. */
  lemma ProviderIDSpelled(codec: Codec, a: AssetIdentity)
    requires Lawful(codec) && IsCanonical(codec, a)
    ensures a.kind == "native" ==> ProviderID(a) == Some("XLM")
    ensures a.kind == "classic" ==>
      ProviderID(a).Some? && Split(ProviderID(a).value, '-') == [a.code, a.issuer, if |a.code| <= 4 then "1" else "2"]
    ensures a.kind == "contract" ==> ProviderID(a).None?
  {
    if a.kind == CLASSIC {
      ProviderIDParts(codec, a);
    }
  }

  /** A descriptor of a classic asset parses exactly when it closes with the digit its code calls
      for, blanks after it aside. */
  lemma DescriptorIff(codec: Codec, code: string, issuer: string, t: string)
    requires Lawful(codec) && IsCanonical(codec, AssetIdentity("classic", code, issuer, ""))
    ensures ParseDescriptor(codec, code + "-" + issuer + "-" + t) ==
      if TrimRight(t) == (if |code| <= 4 then "1" else "2") then Some(AssetIdentity("classic", code, issuer, ""))
          else None
  {
    CodeFixed(code);
    StrkeyFixed(codec, AccountId, issuer);
    DescriptorParts(code, issuer, t);
    PartsIff(codec, code, issuer, TrimRight(t));
  }

  lemma DescriptorParts(code: string, issuer: string, t: string)
    requires code != "" && !IsSpace(code[0]) && Free(code, '-') && Free(issuer, '-')
    ensures var d := TrimSpace(code + "-" + issuer + "-" + t);
            d != "XLM" && Split(d, '-') == [code, issuer] + Split(TrimRight(t), '-')
  {
    var pre := code + "-" + issuer + "-";
    assert (pre + t)[0] == code[0];
    TrimTail(pre, t);
    SplitThree(code, '-', issuer, TrimRight(t));
    assert pre[|code|] == '-';
    assert (pre + TrimRight(t))[|code|] == '-';
  }

  lemma PartsIff(codec: Codec, code: string, issuer: string, t: string)
    requires Lawful(codec) && IsCanonical(codec, AssetIdentity("classic", code, issuer, ""))
    ensures FromParts(codec, [code, issuer] + Split(t, '-')) ==
      if t == (if |code| <= 4 then "1" else "2") then Some(AssetIdentity("classic", code, issuer, "")) else None
  {
    SplitSingle(t, '-');
    if Free(t, '-') {
      SplitWhole(t, '-');
      CanonicalIsFixed(codec, AssetIdentity(CLASSIC, code, issuer, ""));
    }
  }

  lemma {:induction false} TrimTail(pre: string, t: string)
    requires pre != "" && !IsSpace(pre[|pre| - 1])
    ensures TrimRight(pre + t) == pre + TrimRight(t)
  {
    if t == "" {
      assert pre + t == pre;
    } else if IsSpace(t[|t| - 1]) {
      assert (pre + t)[..|pre + t| - 1] == pre + t[..|t| - 1];
      TrimTail(pre, t[..|t| - 1]);
    }
  }

  lemma PrintedIsNormalized(codec: Codec, a: AssetIdentity)
    requires Lawful(codec) && IsCanonical(codec, a) && a.kind != CONTRACT
    ensures ProviderID(a).Some? && Normalized(ProviderID(a).value)
  {
    if a.kind == CLASSIC {
      ProviderIDParts(codec, a);
      ProviderIDTrimmed(a);
      CodeFixed(a.code);
      StrkeyFixed(codec, AccountId, a.issuer);
    } else {
      TrimFixed("XLM");
    }
  }

  /** The other round trip: printing what was parsed gives the descriptor back if and only if it was
      normalized. */
  lemma ParseThenPrint(codec: Codec, d: string)
    requires Lawful(codec) && ParseDescriptor(codec, d).Some?
    ensures ProviderID(ParseDescriptor(codec, d).value) == Some(d) <==> Normalized(d)
  {
    PrintedIsNormalized(codec, ParseDescriptor(codec, d).value);
    if Normalized(d) {
      NormalizedReturns(codec, d);
    }
  }

  lemma NormalizedReturns(codec: Codec, d: string)
    requires Normalized(d) && ParseDescriptor(codec, d).Some?
    ensures ProviderID(ParseDescriptor(codec, d).value) == Some(d)
  {
    if d != "XLM" {
      JoinThree(d, '-');
    }
  }

  /** Distinct assets are named differently to the provider. */
  lemma ProviderIDInjective(codec: Codec, a: AssetIdentity, b: AssetIdentity)
    requires Lawful(codec) && IsCanonical(codec, a) && IsCanonical(codec, b)
    requires a.kind != CONTRACT && b.kind != CONTRACT
    ensures ProviderID(a) == ProviderID(b) <==> a == b
  {
    PrintThenParse(codec, a);
    PrintThenParse(codec, b);
  }
}
