/**
 * What the AuthnRequest builder promises about the document it assembles:
 * which optional part appears under which condition, what each part carries,
 * and how a single input changes the whole document.
 */
module AuthnRequestProperties {
  import opened Wrappers
  import opened Php
  import opened Strings
  import opened Saml2

  // ------------------------------------------------------------------- flags

  lemma EmptyContainsOnlyEmpty(m: string)
    requires Contains("", m)
    ensures m == ""
  {
    var i :| OccursAt("", m, i);
  }

  /** `ForceAuthn="true"` is written exactly when the flag is set. */
  lemma ForceAuthnGate(forceAuthn: bool)
    ensures Contains(ForceAuthnFragment(forceAuthn), Attr("ForceAuthn", "true")) <==> forceAuthn
    ensures !forceAuthn ==> ForceAuthnFragment(forceAuthn) == ""
  {
    if forceAuthn {
      ContainsWhole(Attr("ForceAuthn", "true"));
      ContainsBehind("\n    ", Attr("ForceAuthn", "true"), Attr("ForceAuthn", "true"));
    } else if Contains(ForceAuthnFragment(forceAuthn), Attr("ForceAuthn", "true")) {
      EmptyContainsOnlyEmpty(Attr("ForceAuthn", "true"));
    }
  }

  /** `IsPassive="true"` is written exactly when the flag is set. */
  lemma IsPassiveGate(isPassive: bool)
    ensures Contains(IsPassiveFragment(isPassive), Attr("IsPassive", "true")) <==> isPassive
    ensures !isPassive ==> IsPassiveFragment(isPassive) == ""
  {
    if isPassive {
      ContainsWhole(Attr("IsPassive", "true"));
      ContainsBehind("\n    ", Attr("IsPassive", "true"), Attr("IsPassive", "true"));
    } else if Contains(IsPassiveFragment(isPassive), Attr("IsPassive", "true")) {
      EmptyContainsOnlyEmpty(Attr("IsPassive", "true"));
    }
  }

  // ----------------------------------------------------------------- subject

  /**
   * The Subject is written exactly when a subject is requested; it then names
   * the subject with the SP's NameID format and asks for bearer confirmation.
   */
  lemma SubjectGate(nameIdFormat: string, nameIdValueReq: Option<string>)
    ensures SubjectFragment(nameIdFormat, nameIdValueReq) != "" <==> nameIdValueReq.Some?
    ensures nameIdValueReq.Some? ==>
      Contains(SubjectFragment(nameIdFormat, nameIdValueReq), NameIdElement(nameIdFormat, nameIdValueReq.value))
    ensures nameIdValueReq.Some? ==>
      Contains(SubjectFragment(nameIdFormat, nameIdValueReq), Attr("Method", CM_BEARER))
  {
    if nameIdValueReq.Some? {
      var v := nameIdValueReq.value;
      var nameId := NameIdElement(nameIdFormat, v);
      var tail := "\n        " + (BEARER_CONFIRMATION + "\n    </saml:Subject>");
      var head := "\n     <saml:Subject>\n        ";
      ContainsFront(nameId, tail);
      ContainsBehind(head, nameId + tail, nameId);
      var bearer := Attr("Method", CM_BEARER);
      var confirmation := "<saml:SubjectConfirmation " + bearer + "></saml:SubjectConfirmation>";
      assert confirmation == "<saml:SubjectConfirmation " + (bearer + "></saml:SubjectConfirmation>");
      ContainsFront(bearer, "></saml:SubjectConfirmation>");
      ContainsBehind("<saml:SubjectConfirmation ", bearer + "></saml:SubjectConfirmation>", bearer);
      ContainsBefore(confirmation, "\n    </saml:Subject>", bearer);
      ContainsBehind("\n        ", confirmation + "\n    </saml:Subject>", bearer);
      ContainsBehind(nameId, tail, bearer);
      ContainsBehind(head, nameId + tail, bearer);
    }
  }

  // ----------------------------------------------------------- NameIDPolicy

  /**
   * The NameIDPolicy is written exactly when asked for; its Format is the
   * encrypted format when the SP wants encrypted NameIDs and the SP's own
   * format otherwise, and it always allows creation.
   */
  lemma NameIdPolicyGate(setNameIdPolicy: bool, sp: SpData, security: SecurityData)
    ensures NameIdPolicyFragment(setNameIdPolicy, sp, security) != "" <==> setNameIdPolicy
    ensures setNameIdPolicy && security.wantNameIdEncrypted == Some(true) ==>
      Contains(NameIdPolicyFragment(setNameIdPolicy, sp, security), Attr("Format", NAMEID_ENCRYPTED))
    ensures setNameIdPolicy && security.wantNameIdEncrypted != Some(true) ==>
      Contains(NameIdPolicyFragment(setNameIdPolicy, sp, security), Attr("Format", sp.nameIdFormat))
    ensures setNameIdPolicy ==>
      Contains(NameIdPolicyFragment(setNameIdPolicy, sp, security), Attr("AllowCreate", "true"))
  {
    if setNameIdPolicy {
      var format := Attr("Format", NameIdPolicyFormat(sp, security));
      var allow := Attr("AllowCreate", "true");
      var head := "\n    <samlp:NameIDPolicy\n        ";
      var rest := "\n        " + (allow + " />");
      ContainsFront(format, rest);
      ContainsBehind(head, format + rest, format);
      ContainsFront(allow, " />");
      ContainsBehind("\n        ", allow + " />", allow);
      ContainsBehind(format, rest, allow);
      ContainsBehind(head, format + rest, allow);
    }
  }

  // ------------------------------------------------------------ ProviderName

  lemma {:induction false} LookupFindsFirst(organization: seq<OrganizationEntry>, lang: string, i: int)
    requires 0 <= i < |organization| && organization[i].lang == lang
    requires forall j :: 0 <= j < i ==> organization[j].lang != lang
    ensures Lookup(organization, lang) == Some(organization[i])
  {
    if i > 0 {
      LookupFindsFirst(organization[1..], lang, i - 1);
    }
  }

  /** With no organization data there is no ProviderName. */
  lemma ProviderNameOfEmptyOrganization()
    ensures ProviderNameFragment([]) == ""
  {
  }

  /** The first "en-US" entry is used whenever there is one. */
  lemma ProviderNamePrefersEnUs(organization: seq<OrganizationEntry>, i: int)
    requires 0 <= i < |organization| && organization[i].lang == EN_US
    requires forall j :: 0 <= j < i ==> organization[j].lang != EN_US
    ensures ProviderName(organization) == UsableDisplayName(organization[i].displayName)
  {
    LookupFindsFirst(organization, EN_US, i);
  }

  /** Without an "en-US" entry, the first entry is used. */
  lemma ProviderNameFallsBackToFirst(organization: seq<OrganizationEntry>)
    requires organization != [] && !HasLanguage(organization, EN_US)
    ensures ProviderName(organization) == UsableDisplayName(organization[0].displayName)
  {
    LookupFindsFirst(organization, organization[0].lang, 0);
  }

  /** A displayname is used only when set and neither "" nor "0". */
  lemma UsableDisplayNameIsPhpNonEmpty(displayName: Option<string>)
    ensures UsableDisplayName(displayName).Some? <==>
      displayName.Some? && displayName.value != "" && displayName.value != "0"
    ensures UsableDisplayName(displayName).Some? ==> UsableDisplayName(displayName) == displayName
  {
  }

  /** The ProviderName attribute is written exactly when a usable displayname was selected, and carries it unescaped. */
  lemma ProviderNameGate(organization: seq<OrganizationEntry>)
    ensures ProviderNameFragment(organization) != "" <==> ProviderName(organization).Some?
    ensures ProviderName(organization).Some? ==>
      Contains(ProviderNameFragment(organization), Attr("ProviderName", ProviderName(organization).value))
  {
    match ProviderName(organization)
    case None =>
    case Some(name) =>
      ContainsWhole(Attr("ProviderName", name));
      ContainsBehind("    ", Attr("ProviderName", name), Attr("ProviderName", name));
  }

  /** An "en-US" entry whose displayname is "0" hides the other languages' names. */
  lemma ProviderNameZeroExample()
    ensures ProviderNameFragment([OrganizationEntry("nl", Some("Voorbeeld")), OrganizationEntry(EN_US, Some("0"))]) == ""
  {
    var organization := [OrganizationEntry("nl", Some("Voorbeeld")), OrganizationEntry(EN_US, Some("0"))];
    ProviderNamePrefersEnUs(organization, 1);
  }

  // --------------------------------------------------- RequestedAuthnContext

  /** The comparison defaults to "exact", takes the configured value, and is dropped when that value is PHP-empty. */
  lemma ComparisonAttributeCases(security: SecurityData)
    ensures security.requestedAuthnContextComparison == None ==>
      ComparisonAttribute(security) == Attr("Comparison", "exact")
    ensures security.requestedAuthnContextComparison.Some? ==>
      (ComparisonAttribute(security) == "" <==> IsEmptyString(security.requestedAuthnContextComparison.value))
    ensures security.requestedAuthnContextComparison.Some? && !IsEmptyString(security.requestedAuthnContextComparison.value) ==>
      ComparisonAttribute(security) == Attr("Comparison", security.requestedAuthnContextComparison.value)
  {
  }

  /** RequestedAuthnContext is omitted exactly when the setting is unset or false. */
  lemma RequestedAuthnContextGate(security: SecurityData)
    ensures RequestedAuthnContextFragment(security) == "" <==>
      security.requestedAuthnContext == Unset || security.requestedAuthnContext == Flag(false)
  {
    match security.requestedAuthnContext
    case Unset =>
    case Flag(enabled) =>
      if enabled {
        assert RequestedAuthnContextFragment(security)[0] == '\n';
      }
    case ClassRefs(refs) =>
      assert RequestedAuthnContextFragment(security)[0] == ' ';
  }

  /**
   * `true` asks for exactly one class reference, PasswordProtectedTransport:
   * the same element a one-entry list gives, after a line break.
   */
  lemma RequestedAuthnContextTrue(security: SecurityData)
    requires security.requestedAuthnContext == Flag(true)
    ensures RequestedAuthnContextFragment(security) ==
      "\n" + RequestedAuthnContextList(ComparisonAttribute(security), [AC_PASSWORD_PROTECTED_TRANSPORT])
  {
    ClassRefLinesSingle(AC_PASSWORD_PROTECTED_TRANSPORT);
  }

  lemma ClassRefLinesSingle(x: string)
    ensures ClassRefLines([x]) == ClassRefLine(x)
  {
    assert [x][..0] == [];
    assert "" + ClassRefLine(x) == ClassRefLine(x);
  }

  /** An empty list still writes the wrapper, with no class reference in it. */
  lemma RequestedAuthnContextEmptyList(security: SecurityData)
    requires security.requestedAuthnContext == ClassRefs([])
    ensures RequestedAuthnContextFragment(security) ==
      RequestedAuthnContextOpen(ComparisonAttribute(security)) + REQUESTED_AUTHN_CONTEXT_CLOSE
  {
  }

  /** Text with no `<` in it, such as a class-reference URI. */
  predicate NoTagOpen(s: string) {
    forall i :: 0 <= i < |s| ==> s[i] != '<'
  }

  /** The length of the text before the first `<`. */
  function TextBeforeTag(s: string): (k: nat)
    ensures k <= |s|
  {
    if s == [] || s[0] == '<' then 0 else 1 + TextBeforeTag(s[1..])
  }

  /** Reads back the class references from a run of AuthnContextClassRef lines. */
  function ParseClassRefLines(s: string): Option<seq<string>>
    decreases |s|
  {
    if s == [] then Some([])
    else if !HasPrefix(s, CLASS_REF_OPEN) then None
    else
      var body := s[|CLASS_REF_OPEN|..];
      var k := TextBeforeTag(body);
      if !HasPrefix(body[k..], CLASS_REF_CLOSE) then None
      else
        match ParseClassRefLines(body[k + |CLASS_REF_CLOSE|..])
        case None => None
        case Some(rest) => Some([body[..k]] + rest)
  }

  lemma {:induction false} TextBeforeTagOf(x: string, t: string)
    requires NoTagOpen(x) && t != [] && t[0] == '<'
    ensures TextBeforeTag(x + t) == |x|
  {
    if x != [] {
      assert (x + t)[1..] == x[1..] + t;
      TextBeforeTagOf(x[1..], t);
    }
  }

  lemma {:induction false} ClassRefLinesCons(x: string, refs: seq<string>)
    ensures ClassRefLines([x] + refs) == ClassRefLine(x) + ClassRefLines(refs)
    decreases |refs|
  {
    if refs == [] {
      assert [x] + refs == [x];
      assert ClassRefLines([x]) == ClassRefLines([]) + ClassRefLine(x);
    } else {
      var init := refs[..|refs| - 1];
      var last := refs[|refs| - 1];
      assert ([x] + refs)[..|[x] + refs| - 1] == [x] + init;
      ClassRefLinesCons(x, init);
      ConcatAssoc(ClassRefLine(x), ClassRefLines(init), ClassRefLine(last));
    }
  }

  /** One parse step: a line followed by more text reads back as its class reference. */
  lemma ParseClassRefLine(x: string, t: string)
    requires NoTagOpen(x)
    ensures ParseClassRefLines(ClassRefLine(x) + t) ==
      match ParseClassRefLines(t) case None => None case Some(rest) => Some([x] + rest)
  {
    var s := ClassRefLine(x) + t;
    ConcatAssoc(x, CLASS_REF_CLOSE, t);
    ConcatAssoc(CLASS_REF_OPEN, x + CLASS_REF_CLOSE, t);
    var body := x + (CLASS_REF_CLOSE + t);
    assert s == CLASS_REF_OPEN + body;
    assert s[|CLASS_REF_OPEN|..] == body;
    TextBeforeTagOf(x, CLASS_REF_CLOSE + t);
    assert body[|x|..] == CLASS_REF_CLOSE + t;
    assert body[..|x|] == x;
    assert body[|x| + |CLASS_REF_CLOSE|..] == t;
  }

  /**
   * The list branch writes one AuthnContextClassRef per configured entry, in
   * list order and nothing else: the lines read back as the list.
   */
  lemma {:induction false} ClassRefLinesReadBack(refs: seq<string>)
    requires forall i :: 0 <= i < |refs| ==> NoTagOpen(refs[i])
    ensures ParseClassRefLines(ClassRefLines(refs)) == Some(refs)
  {
    if refs != [] {
      ClassRefLinesCons(refs[0], refs[1..]);
      assert [refs[0]] + refs[1..] == refs;
      ClassRefLinesReadBack(refs[1..]);
      ParseClassRefLine(refs[0], ClassRefLines(refs[1..]));
    }
  }

  // -------------------------------------------------------------- extensions

  /** The Extensions wrapper is written exactly when there is an extension key. */
  lemma ExtensionsGate(keys: seq<string>)
    ensures ExtensionsFragment(keys) != "" <==> |keys| > 0
  {
    if |keys| > 0 {
      assert ExtensionsFragment(keys)[0] == ' ';
    }
  }

  /**
   * What the loop collects: no namespace and no body without a tr03130 key;
   * with one, all three namespace declarations and nothing else.
   */
  lemma {:induction false} ExtensionNamespacesShape(keys: seq<string>)
    ensures TR03130 !in keys ==> ExtensionNamespaces(keys) == [] && ExtensionBodies(keys) == ""
    ensures TR03130 in keys ==> forall j :: 0 <= j < |TR03130_NAMESPACES| ==> TR03130_NAMESPACES[j] in ExtensionNamespaces(keys)
    ensures forall j :: 0 <= j < |ExtensionNamespaces(keys)| ==> ExtensionNamespaces(keys)[j] in TR03130_NAMESPACES
  {
    if keys != [] {
      var init := keys[..|keys| - 1];
      var last := keys[|keys| - 1];
      assert keys == init + [last];
      ExtensionNamespacesShape(init);
      var ns := ExtensionNamespaces(keys);
      assert ns == ExtensionNamespaces(init) + ExtensionNamespaceList(last);
      if TR03130 !in keys {
        assert TR03130 !in init && last != TR03130;
      }
      if TR03130 in keys && last == TR03130 {
        forall j | 0 <= j < |TR03130_NAMESPACES|
          ensures TR03130_NAMESPACES[j] in ns
        {
          assert ns[|ExtensionNamespaces(init)| + j] == TR03130_NAMESPACES[j];
        }
      }
      if TR03130 in keys && last != TR03130 {
        assert TR03130 in init;
        assert ns == ExtensionNamespaces(init);
      }
    }
  }

  /** Keys other than tr03130 add nothing but the empty wrapper. */
  lemma UnrecognisedExtensionsAreEmpty(keys: seq<string>)
    requires |keys| > 0 && TR03130 !in keys
    ensures ExtensionsFragment(keys) == EXTENSIONS_OPEN + EXTENSIONS_CLOSE
    ensures NamespaceDeclarations(keys) == ""
  {
    ExtensionNamespacesShape(keys);
    assert "" + EXTENSIONS_CLOSE == EXTENSIONS_CLOSE;
  }

  /** Extension keys are the keys of a PHP array: a tr03130 key adds its skeleton once. */
  lemma {:induction false} Tr03130SkeletonOnce(keys: seq<string>)
    requires Distinct(keys) && TR03130 in keys
    ensures ExtensionBodies(keys) == TR03130_SKELETON
  {
    var init := keys[..|keys| - 1];
    var last := keys[|keys| - 1];
    assert keys == init + [last];
    assert Distinct(init);
    if last == TR03130 {
      assert TR03130 !in init;
      ExtensionNamespacesShape(init);
      assert "" + TR03130_SKELETON == TR03130_SKELETON;
    } else {
      assert TR03130 in init;
      Tr03130SkeletonOnce(init);
      assert TR03130_SKELETON + "" == TR03130_SKELETON;
    }
  }

  lemma Tr03130NamespacesDistinct()
    ensures Distinct(TR03130_NAMESPACES)
  {
    assert TR03130_NAMESPACES[0][6] == 'x';
    assert TR03130_NAMESPACES[1][6] == 'e';
    assert TR03130_NAMESPACES[2][6] == 'd';
  }

  /** `array_unique` leaves one copy of each declaration, however often tr03130 occurs. */
  lemma {:induction false} UniqueExtensionNamespaces(keys: seq<string>)
    ensures ArrayUnique(ExtensionNamespaces(keys)) == if TR03130 in keys then TR03130_NAMESPACES else []
  {
    if keys != [] {
      var init := keys[..|keys| - 1];
      var last := keys[|keys| - 1];
      assert keys == init + [last];
      ExtensionNamespacesShape(init);
      var before := ExtensionNamespaces(init);
      var added := ExtensionNamespaceList(last);
      if TR03130 in init {
        assert forall i :: 0 <= i < |added| ==> added[i] in before;
        ArrayUniqueAbsorbs(before, added);
        UniqueExtensionNamespaces(init);
      } else if last == TR03130 {
        assert before + added == TR03130_NAMESPACES;
        Tr03130NamespacesDistinct();
        ArrayUniqueOfDistinct(TR03130_NAMESPACES);
      } else {
        assert before + added == [];
      }
    }
  }

  /** `$nsStr`: the three tr03130 declarations separated by single spaces, or nothing. */
  lemma NamespaceDeclarationsText(keys: seq<string>)
    ensures NamespaceDeclarations(keys) ==
      if TR03130 in keys then
        TR03130_NAMESPACES[0] + " " + (TR03130_NAMESPACES[1] + " " + TR03130_NAMESPACES[2])
      else ""
  {
    UniqueExtensionNamespaces(keys);
    if TR03130 in keys {
      assert TR03130_NAMESPACES[1..][1..] == [TR03130_NAMESPACES[2]];
    }
  }

  // ---------------------------------------------------------------- document
  //
  // The template lemmas take the fourteen interpolated values as they are;
  // the document lemmas instantiate them with the fragments of given inputs.

  /** The document opens with the root start tag and its two namespaces, and ends with the root end tag. */
  lemma TemplateFraming(
    nsStr: string, id: string, providerNameStr: string, forceAuthnStr: string, isPassiveStr: string,
    issueInstant: string, destination: string, protocolBinding: string, acsUrl: string,
    spEntityId: string, subjectStr: string, nameIdPolicyStr: string, requestedAuthnStr: string,
    extStr: string)
    ensures HasPrefix(AuthnRequestTemplate(nsStr, id, providerNameStr, forceAuthnStr, isPassiveStr,
      issueInstant, destination, protocolBinding, acsUrl, spEntityId, subjectStr, nameIdPolicyStr,
      requestedAuthnStr, extStr), ROOT_OPEN)
    ensures HasSuffix(AuthnRequestTemplate(nsStr, id, providerNameStr, forceAuthnStr, isPassiveStr,
      issueInstant, destination, protocolBinding, acsUrl, spEntityId, subjectStr, nameIdPolicyStr,
      requestedAuthnStr, extStr), ROOT_END)
  {
    var tail := RootTail(issueInstant, destination, protocolBinding, acsUrl);
    var children := Children(spEntityId, subjectStr, nameIdPolicyStr, requestedAuthnStr, extStr);
    var rest := providerNameStr + (forceAuthnStr + (isPassiveStr + (tail + children)));
    var headRest := nsStr + ("\n    " + (Attr("ID", id) + "\n    Version=\"2.0\"\n"));
    ConcatAssoc(ROOT_OPEN, headRest, rest);
    PrefixFront(ROOT_OPEN, headRest + rest);

    var e := extStr + ROOT_END;
    var r := requestedAuthnStr + e;
    var n := nameIdPolicyStr + r;
    var c := subjectStr + n;
    assert HasSuffix(ROOT_END, ROOT_END);
    SuffixBehind(extStr, ROOT_END, ROOT_END);
    SuffixBehind(requestedAuthnStr, e, ROOT_END);
    SuffixBehind(nameIdPolicyStr, r, ROOT_END);
    SuffixBehind(subjectStr, n, ROOT_END);
    SuffixBehind(IssuerElement(spEntityId), c, ROOT_END);
    SuffixBehind(tail, children, ROOT_END);
    SuffixBehind(isPassiveStr, tail + children, ROOT_END);
    SuffixBehind(forceAuthnStr, isPassiveStr + (tail + children), ROOT_END);
    SuffixBehind(providerNameStr, forceAuthnStr + (isPassiveStr + (tail + children)), ROOT_END);
    SuffixBehind(RootHead(nsStr, id), rest, ROOT_END);
  }

  /** Whatever the attribute lines after the flags carry, the document carries. */
  lemma TemplateContainsTail(
    nsStr: string, id: string, providerNameStr: string, forceAuthnStr: string, isPassiveStr: string,
    issueInstant: string, destination: string, protocolBinding: string, acsUrl: string,
    spEntityId: string, subjectStr: string, nameIdPolicyStr: string, requestedAuthnStr: string,
    extStr: string, m: string)
    requires Contains(RootTail(issueInstant, destination, protocolBinding, acsUrl), m)
    ensures Contains(AuthnRequestTemplate(nsStr, id, providerNameStr, forceAuthnStr, isPassiveStr,
      issueInstant, destination, protocolBinding, acsUrl, spEntityId, subjectStr, nameIdPolicyStr,
      requestedAuthnStr, extStr), m)
  {
    var tail := RootTail(issueInstant, destination, protocolBinding, acsUrl);
    var children := Children(spEntityId, subjectStr, nameIdPolicyStr, requestedAuthnStr, extStr);
    ContainsBefore(tail, children, m);
    ContainsBehind(isPassiveStr, tail + children, m);
    ContainsBehind(forceAuthnStr, isPassiveStr + (tail + children), m);
    ContainsBehind(providerNameStr, forceAuthnStr + (isPassiveStr + (tail + children)), m);
    ContainsBehind(RootHead(nsStr, id), providerNameStr + (forceAuthnStr + (isPassiveStr + (tail + children))), m);
  }

  /** Whatever the children carry, the document carries. */
  lemma TemplateContainsChildren(
    nsStr: string, id: string, providerNameStr: string, forceAuthnStr: string, isPassiveStr: string,
    issueInstant: string, destination: string, protocolBinding: string, acsUrl: string,
    spEntityId: string, subjectStr: string, nameIdPolicyStr: string, requestedAuthnStr: string,
    extStr: string, m: string)
    requires Contains(Children(spEntityId, subjectStr, nameIdPolicyStr, requestedAuthnStr, extStr), m)
    ensures Contains(AuthnRequestTemplate(nsStr, id, providerNameStr, forceAuthnStr, isPassiveStr,
      issueInstant, destination, protocolBinding, acsUrl, spEntityId, subjectStr, nameIdPolicyStr,
      requestedAuthnStr, extStr), m)
  {
    var tail := RootTail(issueInstant, destination, protocolBinding, acsUrl);
    var children := Children(spEntityId, subjectStr, nameIdPolicyStr, requestedAuthnStr, extStr);
    ContainsBehind(tail, children, m);
    ContainsBehind(isPassiveStr, tail + children, m);
    ContainsBehind(forceAuthnStr, isPassiveStr + (tail + children), m);
    ContainsBehind(providerNameStr, forceAuthnStr + (isPassiveStr + (tail + children)), m);
    ContainsBehind(RootHead(nsStr, id), providerNameStr + (forceAuthnStr + (isPassiveStr + (tail + children))), m);
  }

  /** The attribute lines after the flags carry the issue instant, destination and binding as given and the ACS URL as passed in. */
  lemma RootTailCarriesValues(issueInstant: string, destination: string, protocolBinding: string, acsUrl: string)
    ensures Contains(RootTail(issueInstant, destination, protocolBinding, acsUrl), Attr("IssueInstant", issueInstant))
    ensures Contains(RootTail(issueInstant, destination, protocolBinding, acsUrl), Attr("Destination", destination))
    ensures Contains(RootTail(issueInstant, destination, protocolBinding, acsUrl), Attr("ProtocolBinding", protocolBinding))
    ensures Contains(RootTail(issueInstant, destination, protocolBinding, acsUrl),
      Attr("AssertionConsumerServiceURL", acsUrl))
  {
    var a4 := Attr("AssertionConsumerServiceURL", acsUrl);
    var a3 := Attr("ProtocolBinding", protocolBinding);
    var a2 := Attr("Destination", destination);
    var a1 := Attr("IssueInstant", issueInstant);
    var t4 := a4 + ">\n    ";
    var t3 := a3 + ("\n    " + t4);
    var t2 := a2 + ("\n    " + t3);
    var t1 := a1 + ("\n    " + t2);
    ContainsFront(a4, ">\n    ");
    ContainsBehind("\n    ", t4, a4);
    ContainsBehind(a3, "\n    " + t4, a4);
    ContainsFront(a3, "\n    " + t4);
    ContainsBehind("\n    ", t3, a3);
    ContainsBehind("\n    ", t3, a4);
    ContainsBehind(a2, "\n    " + t3, a3);
    ContainsBehind(a2, "\n    " + t3, a4);
    ContainsFront(a2, "\n    " + t3);
    ContainsBehind("\n    ", t2, a2);
    ContainsBehind("\n    ", t2, a3);
    ContainsBehind("\n    ", t2, a4);
    ContainsBehind(a1, "\n    " + t2, a2);
    ContainsBehind(a1, "\n    " + t2, a3);
    ContainsBehind(a1, "\n    " + t2, a4);
    ContainsFront(a1, "\n    " + t2);
    ContainsBehind("\n    ", t1, a1);
    ContainsBehind("\n    ", t1, a2);
    ContainsBehind("\n    ", t1, a3);
    ContainsBehind("\n    ", t1, a4);
  }

  /**
   * The root carries the issue instant, the destination and the binding as
   * given and the ACS URL escaped.
   */
  lemma DocumentCarriesRootAttributes(settings: Settings, options: RequestOptions, id: string, issueInstant: string)
    ensures Contains(Document(settings, options, id, issueInstant), Attr("IssueInstant", issueInstant))
    ensures Contains(Document(settings, options, id, issueInstant), Attr("Destination", settings.idpSsoUrl))
    ensures Contains(Document(settings, options, id, issueInstant), Attr("ProtocolBinding", settings.sp.acs.binding))
    ensures Contains(Document(settings, options, id, issueInstant),
      Attr("AssertionConsumerServiceURL", HtmlSpecialChars(settings.sp.acs.url)))
  {
    var sp := settings.sp;
    var nsStr := NamespaceDeclarations(settings.authnReqExt);
    var pn := ProviderNameFragment(settings.organization);
    var fa := ForceAuthnFragment(options.forceAuthn);
    var ip := IsPassiveFragment(options.isPassive);
    var acsUrl := HtmlSpecialChars(sp.acs.url);
    var entity := HtmlSpecialChars(sp.entityId);
    var subj := SubjectFragment(sp.nameIdFormat, options.nameIdValueReq);
    var nip := NameIdPolicyFragment(options.setNameIdPolicy, sp, settings.security);
    var rac := RequestedAuthnContextFragment(settings.security);
    var ext := ExtensionsFragment(settings.authnReqExt);
    var dest := settings.idpSsoUrl;
    var binding := sp.acs.binding;
    RootTailCarriesValues(issueInstant, dest, binding, acsUrl);
    TemplateContainsTail(nsStr, id, pn, fa, ip, issueInstant, dest, binding, acsUrl, entity, subj, nip, rac, ext,
      Attr("IssueInstant", issueInstant));
    TemplateContainsTail(nsStr, id, pn, fa, ip, issueInstant, dest, binding, acsUrl, entity, subj, nip, rac, ext,
      Attr("Destination", dest));
    TemplateContainsTail(nsStr, id, pn, fa, ip, issueInstant, dest, binding, acsUrl, entity, subj, nip, rac, ext,
      Attr("ProtocolBinding", binding));
    TemplateContainsTail(nsStr, id, pn, fa, ip, issueInstant, dest, binding, acsUrl, entity, subj, nip, rac, ext,
      Attr("AssertionConsumerServiceURL", acsUrl));
  }

  /** The Issuer is always present and carries the escaped SP entity ID. */
  lemma DocumentCarriesIssuer(settings: Settings, options: RequestOptions, id: string, issueInstant: string)
    ensures Contains(Document(settings, options, id, issueInstant), IssuerElement(HtmlSpecialChars(settings.sp.entityId)))
  {
    var sp := settings.sp;
    var entity := HtmlSpecialChars(sp.entityId);
    var subj := SubjectFragment(sp.nameIdFormat, options.nameIdValueReq);
    var nip := NameIdPolicyFragment(options.setNameIdPolicy, sp, settings.security);
    var rac := RequestedAuthnContextFragment(settings.security);
    var ext := ExtensionsFragment(settings.authnReqExt);
    var issuer := IssuerElement(entity);
    ContainsFront(issuer, subj + (nip + (rac + (ext + ROOT_END))));
    TemplateContainsChildren(NamespaceDeclarations(settings.authnReqExt), id,
      ProviderNameFragment(settings.organization),
      ForceAuthnFragment(options.forceAuthn), IsPassiveFragment(options.isPassive),
      issueInstant, settings.idpSsoUrl, sp.acs.binding, HtmlSpecialChars(sp.acs.url),
      entity, subj, nip, rac, ext, issuer);
  }

  /** The document starts with the root start tag and ends with the root end tag. */
  lemma DocumentFraming(settings: Settings, options: RequestOptions, id: string, issueInstant: string)
    ensures HasPrefix(Document(settings, options, id, issueInstant), ROOT_OPEN)
    ensures HasSuffix(Document(settings, options, id, issueInstant), ROOT_END)
  {
    var sp := settings.sp;
    TemplateFraming(
      NamespaceDeclarations(settings.authnReqExt), id,
      ProviderNameFragment(settings.organization),
      ForceAuthnFragment(options.forceAuthn), IsPassiveFragment(options.isPassive),
      issueInstant, settings.idpSsoUrl, sp.acs.binding, HtmlSpecialChars(sp.acs.url),
      HtmlSpecialChars(sp.entityId),
      SubjectFragment(sp.nameIdFormat, options.nameIdValueReq),
      NameIdPolicyFragment(options.setNameIdPolicy, sp, settings.security),
      RequestedAuthnContextFragment(settings.security),
      ExtensionsFragment(settings.authnReqExt));
  }

  /** Turning ForceAuthn on inserts its attribute and changes nothing else in the document. */
  lemma ForceAuthnOnlyInsertsItsAttribute(settings: Settings, options: RequestOptions, id: string, issueInstant: string)
    requires !options.forceAuthn
    ensures InsertedAt(Document(settings, options, id, issueInstant),
      Document(settings, options.(forceAuthn := true), id, issueInstant), FORCE_AUTHN_ATTRIBUTE)
  {
    var sp := settings.sp;
    var nsStr := NamespaceDeclarations(settings.authnReqExt);
    var pn := ProviderNameFragment(settings.organization);
    var rest := IsPassiveFragment(options.isPassive)
      + (RootTail(issueInstant, settings.idpSsoUrl, sp.acs.binding, HtmlSpecialChars(sp.acs.url))
      + Children(HtmlSpecialChars(sp.entityId), SubjectFragment(sp.nameIdFormat, options.nameIdValueReq),
          NameIdPolicyFragment(options.setNameIdPolicy, sp, settings.security),
          RequestedAuthnContextFragment(settings.security), ExtensionsFragment(settings.authnReqExt)));
    InsertedAtFront(rest, FORCE_AUTHN_ATTRIBUTE);
    assert "" + rest == rest;
    InsertedAtBehind(pn, rest, FORCE_AUTHN_ATTRIBUTE + rest, FORCE_AUTHN_ATTRIBUTE);
    InsertedAtBehind(RootHead(nsStr, id), pn + rest, pn + (FORCE_AUTHN_ATTRIBUTE + rest), FORCE_AUTHN_ATTRIBUTE);
  }

  /** Turning IsPassive on inserts its attribute and changes nothing else in the document. */
  lemma IsPassiveOnlyInsertsItsAttribute(settings: Settings, options: RequestOptions, id: string, issueInstant: string)
    requires !options.isPassive
    ensures InsertedAt(Document(settings, options, id, issueInstant),
      Document(settings, options.(isPassive := true), id, issueInstant), IS_PASSIVE_ATTRIBUTE)
  {
    var sp := settings.sp;
    var nsStr := NamespaceDeclarations(settings.authnReqExt);
    var pn := ProviderNameFragment(settings.organization);
    var fa := ForceAuthnFragment(options.forceAuthn);
    var rest := RootTail(issueInstant, settings.idpSsoUrl, sp.acs.binding, HtmlSpecialChars(sp.acs.url))
      + Children(HtmlSpecialChars(sp.entityId), SubjectFragment(sp.nameIdFormat, options.nameIdValueReq),
          NameIdPolicyFragment(options.setNameIdPolicy, sp, settings.security),
          RequestedAuthnContextFragment(settings.security), ExtensionsFragment(settings.authnReqExt));
    var f := IS_PASSIVE_ATTRIBUTE;
    InsertedAtFront(rest, f);
    assert "" + rest == rest;
    InsertedAtBehind(fa, rest, f + rest, f);
    InsertedAtBehind(pn, fa + rest, fa + (f + rest), f);
    InsertedAtBehind(RootHead(nsStr, id), pn + (fa + rest), pn + (fa + (f + rest)), f);
  }

  /** In the template, a Subject in place of none is an insertion after the Issuer. */
  lemma TemplateSubjectSlot(
    nsStr: string, id: string, providerNameStr: string, forceAuthnStr: string, isPassiveStr: string,
    issueInstant: string, destination: string, protocolBinding: string, acsUrl: string,
    spEntityId: string, noSubject: string, nameIdPolicyStr: string, requestedAuthnStr: string, extStr: string,
    f: string)
    requires noSubject == ""
    ensures InsertedAt(
      AuthnRequestTemplate(nsStr, id, providerNameStr, forceAuthnStr, isPassiveStr, issueInstant, destination,
        protocolBinding, acsUrl, spEntityId, noSubject, nameIdPolicyStr, requestedAuthnStr, extStr),
      AuthnRequestTemplate(nsStr, id, providerNameStr, forceAuthnStr, isPassiveStr, issueInstant, destination,
        protocolBinding, acsUrl, spEntityId, f, nameIdPolicyStr, requestedAuthnStr, extStr),
      f)
  {
    var rest := nameIdPolicyStr + (requestedAuthnStr + (extStr + ROOT_END));
    InsertedAtFront(rest, f);
    assert noSubject + rest == rest;
    var issuer := IssuerElement(spEntityId);
    InsertedAtBehind(issuer, rest, f + rest, f);
    TemplateInsertsInChildren(nsStr, id, providerNameStr, forceAuthnStr, isPassiveStr, issueInstant, destination,
      protocolBinding, acsUrl, issuer + rest, issuer + (f + rest), f);
  }

  /**
   * Of two requests that differ only in whether a subject is requested, the
   * one with the subject is the other with the Subject element (described by
   * `SubjectGate`) inserted after the Issuer, and nothing else changed.
   */
  lemma SubjectOnlyInsertsItsElement(settings: Settings, without: RequestOptions, with: RequestOptions,
                                     id: string, issueInstant: string)
    requires without.nameIdValueReq == None && with.nameIdValueReq.Some?
    requires without.forceAuthn == with.forceAuthn && without.isPassive == with.isPassive
    requires without.setNameIdPolicy == with.setNameIdPolicy
    ensures InsertedAt(Document(settings, without, id, issueInstant), Document(settings, with, id, issueInstant),
      SubjectFragment(settings.sp.nameIdFormat, with.nameIdValueReq))
  {
    var sp := settings.sp;
    TemplateSubjectSlot(
      NamespaceDeclarations(settings.authnReqExt), id,
      ProviderNameFragment(settings.organization),
      ForceAuthnFragment(with.forceAuthn), IsPassiveFragment(with.isPassive),
      issueInstant, settings.idpSsoUrl, sp.acs.binding, HtmlSpecialChars(sp.acs.url),
      HtmlSpecialChars(sp.entityId),
      SubjectFragment(sp.nameIdFormat, without.nameIdValueReq),
      NameIdPolicyFragment(with.setNameIdPolicy, sp, settings.security),
      RequestedAuthnContextFragment(settings.security),
      ExtensionsFragment(settings.authnReqExt),
      SubjectFragment(sp.nameIdFormat, with.nameIdValueReq));
  }

  /** Lifts an insertion in the part after the root's attribute lines to the whole template. */
  lemma TemplateInsertsInChildren(
    nsStr: string, id: string, providerNameStr: string, forceAuthnStr: string, isPassiveStr: string,
    issueInstant: string, destination: string, protocolBinding: string, acsUrl: string,
    without: string, with: string, f: string)
    requires InsertedAt(without, with, f)
    ensures InsertedAt(
      RootHead(nsStr, id) + (providerNameStr + (forceAuthnStr + (isPassiveStr
        + (RootTail(issueInstant, destination, protocolBinding, acsUrl) + without)))),
      RootHead(nsStr, id) + (providerNameStr + (forceAuthnStr + (isPassiveStr
        + (RootTail(issueInstant, destination, protocolBinding, acsUrl) + with)))),
      f)
  {
    var tail := RootTail(issueInstant, destination, protocolBinding, acsUrl);
    InsertedAtBehind(tail, without, with, f);
    InsertedAtBehind(isPassiveStr, tail + without, tail + with, f);
    InsertedAtBehind(forceAuthnStr, isPassiveStr + (tail + without), isPassiveStr + (tail + with), f);
    InsertedAtBehind(providerNameStr, forceAuthnStr + (isPassiveStr + (tail + without)),
      forceAuthnStr + (isPassiveStr + (tail + with)), f);
    InsertedAtBehind(RootHead(nsStr, id), providerNameStr + (forceAuthnStr + (isPassiveStr + (tail + without))),
      providerNameStr + (forceAuthnStr + (isPassiveStr + (tail + with))), f);
  }

  /** In the template, a NameIDPolicy in place of none is an insertion after the Subject. */
  lemma TemplateNameIdPolicySlot(
    nsStr: string, id: string, providerNameStr: string, forceAuthnStr: string, isPassiveStr: string,
    issueInstant: string, destination: string, protocolBinding: string, acsUrl: string,
    spEntityId: string, subjectStr: string, requestedAuthnStr: string, extStr: string, f: string)
    ensures InsertedAt(
      AuthnRequestTemplate(nsStr, id, providerNameStr, forceAuthnStr, isPassiveStr, issueInstant, destination,
        protocolBinding, acsUrl, spEntityId, subjectStr, "", requestedAuthnStr, extStr),
      AuthnRequestTemplate(nsStr, id, providerNameStr, forceAuthnStr, isPassiveStr, issueInstant, destination,
        protocolBinding, acsUrl, spEntityId, subjectStr, f, requestedAuthnStr, extStr),
      f)
  {
    var rest := requestedAuthnStr + (extStr + ROOT_END);
    InsertedAtFront(rest, f);
    assert "" + rest == rest;
    InsertedAtBehind(subjectStr, rest, f + rest, f);
    var issuer := IssuerElement(spEntityId);
    InsertedAtBehind(issuer, subjectStr + rest, subjectStr + (f + rest), f);
    TemplateInsertsInChildren(nsStr, id, providerNameStr, forceAuthnStr, isPassiveStr, issueInstant, destination,
      protocolBinding, acsUrl, issuer + (subjectStr + rest), issuer + (subjectStr + (f + rest)), f);
  }

  /** Asking for a NameIDPolicy inserts its element after the Subject and changes nothing else. */
  lemma NameIdPolicyOnlyInsertsItsElement(settings: Settings, options: RequestOptions, id: string, issueInstant: string)
    requires !options.setNameIdPolicy
    ensures InsertedAt(Document(settings, options, id, issueInstant),
      Document(settings, options.(setNameIdPolicy := true), id, issueInstant),
      NameIdPolicyElement(NameIdPolicyFormat(settings.sp, settings.security)))
  {
    var sp := settings.sp;
    TemplateNameIdPolicySlot(
      NamespaceDeclarations(settings.authnReqExt), id,
      ProviderNameFragment(settings.organization),
      ForceAuthnFragment(options.forceAuthn), IsPassiveFragment(options.isPassive),
      issueInstant, settings.idpSsoUrl, sp.acs.binding, HtmlSpecialChars(sp.acs.url),
      HtmlSpecialChars(sp.entityId),
      SubjectFragment(sp.nameIdFormat, options.nameIdValueReq),
      RequestedAuthnContextFragment(settings.security),
      ExtensionsFragment(settings.authnReqExt),
      NameIdPolicyElement(NameIdPolicyFormat(sp, settings.security)));
  }

  /**
   * The NameID value is written unescaped, so the Issuer start tag is not
   * unique in the document: a requested subject whose value is that tag puts
   * a second one inside the Subject.
   */
  lemma IssuerTagCanRepeat(settings: Settings, options: RequestOptions, id: string, issueInstant: string)
    requires options.nameIdValueReq == Some("<saml:Issuer>")
    ensures OccursTwice(Document(settings, options, id, issueInstant), "<saml:Issuer>")
  {
    var sp := settings.sp;
    var m := "<saml:Issuer>";
    var nameId := NameIdElement(sp.nameIdFormat, m);
    var format := Attr("Format", sp.nameIdFormat);
    ContainsFront(m, "</saml:NameID>");
    ContainsBehind(">", m + "</saml:NameID>", m);
    ContainsBehind(format, ">" + (m + "</saml:NameID>"), m);
    ContainsBehind("<saml:NameID ", format + (">" + (m + "</saml:NameID>")), m);
    var subj := SubjectFragment(sp.nameIdFormat, options.nameIdValueReq);
    SubjectGate(sp.nameIdFormat, options.nameIdValueReq);
    ContainsTransitive(subj, nameId, m);
    var rest := NameIdPolicyFragment(options.setNameIdPolicy, sp, settings.security)
      + (RequestedAuthnContextFragment(settings.security) + (ExtensionsFragment(settings.authnReqExt) + ROOT_END));
    ContainsBefore(subj, rest, m);
    var entity := HtmlSpecialChars(sp.entityId);
    OccursTwiceFrontAndBehind(m, entity + "</saml:Issuer>", subj + rest);
    ConcatAssoc(m, entity + "</saml:Issuer>", subj + rest);
    var children := IssuerElement(entity) + (subj + rest);
    var tail := RootTail(issueInstant, settings.idpSsoUrl, sp.acs.binding, HtmlSpecialChars(sp.acs.url));
    var ip := IsPassiveFragment(options.isPassive);
    var fa := ForceAuthnFragment(options.forceAuthn);
    var pn := ProviderNameFragment(settings.organization);
    OccursTwiceBehind(tail, children, m);
    OccursTwiceBehind(ip, tail + children, m);
    OccursTwiceBehind(fa, ip + (tail + children), m);
    OccursTwiceBehind(pn, fa + (ip + (tail + children)), m);
    OccursTwiceBehind(RootHead(NamespaceDeclarations(settings.authnReqExt), id), pn + (fa + (ip + (tail + children))), m);
  }
}
