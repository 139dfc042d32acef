/**
 * The SAML 2.0 `<samlp:AuthnRequest>` builder (section 3.4.1 of the OASIS
 * SAML 2.0 Core specification) of src/Saml2/AuthnRequest.php.
 *
 * The settings collaborator is an immutable input value; the generated ID,
 * the issue instant and raw DEFLATE are parameters. Each optional part of the
 * document is a fragment function; `Document` is the heredoc template filled
 * with them, and the class stores the result once.
 */
module Saml2 {
  import opened Wrappers
  import opened Bytes
  import opened Php
  import opened Strings
  import Utf8
  import Base64

  // ---------------------------------------------------------------- settings

  datatype AssertionConsumerService = AssertionConsumerService(url: string, binding: string)

  /** The service-provider part of the settings (`getSPData()`). */
  datatype SpData = SpData(entityId: string, nameIdFormat: string, acs: AssertionConsumerService)

  /**
   * `$security['requestedAuthnContext']`: unset or null, a boolean, or the
   * list of AuthnContextClassRef URIs.
   */
  datatype AuthnContextSetting = Unset | Flag(enabled: bool) | ClassRefs(refs: seq<string>)

  /** The security part of the settings (`getSecurityData()`); None is an unset or null key. */
  datatype SecurityData = SecurityData(
    wantNameIdEncrypted: Option<bool>,
    requestedAuthnContext: AuthnContextSetting,
    requestedAuthnContextComparison: Option<string>)

  /** One entry of the organization map: its language key and its 'displayname', if set. */
  datatype OrganizationEntry = OrganizationEntry(lang: string, displayName: Option<string>)

  /**
   * What the builder reads from the settings collaborator. The organization
   * map keeps PHP's key order; of the extension map only the keys matter.
   */
  datatype Settings = Settings(
    sp: SpData,
    security: SecurityData,
    organization: seq<OrganizationEntry>,
    authnReqExt: seq<string>,
    idpSsoUrl: string,
    compressRequests: bool)

  /** The constructor's per-call flags. */
  datatype RequestOptions = RequestOptions(
    forceAuthn: bool,
    isPassive: bool,
    setNameIdPolicy: bool,
    nameIdValueReq: Option<string>)

  // --------------------------------------------------------------- constants

  /** `Constants::NAMEID_ENCRYPTED` (the encrypted-identifier format of section 3.4.1.1 of SAML 2.0 Core). */
  const NAMEID_ENCRYPTED := "urn:oasis:names:tc:SAML:2.0:nameid-format:encrypted"
  const CM_BEARER := "urn:oasis:names:tc:SAML:2.0:cm:bearer"
  const AC_PASSWORD_PROTECTED_TRANSPORT := "urn:oasis:names:tc:SAML:2.0:ac:classes:PasswordProtectedTransport"
  const EN_US := "en-US"
  const TR03130 := "tr03130"

  /** The namespace declarations the tr03130 extension needs, in the order they are added. */
  const TR03130_NAMESPACES: seq<string> := [
    "xmlns:xenc=\"http://www.w3.org/2001/04/xmlenc#\"",
    "xmlns:eid=\"http://bsi.bund.de/eID/\"",
    "xmlns:ds=\"http://www.w3.org/2000/09/xmldsig#\""]

  /** `n` spaces. */
  function Indent(n: nat): (r: string)
    ensures |r| == n
  {
    seq(n, _ => ' ')
  }

  /**
   * The fixed, empty encrypted-data skeleton emitted for tr03130: one piece
   * per line of the source, each after its indentation, with no line breaks
   * between them. The rsa-oaep EncryptionMethod is written without a space
   * before its attribute and is never closed.
   */
  const TR03130_SKELETON :=
    (Indent(8) + "<eid:EncryptedAuthnRequestExtension>")
    + (Indent(12) + "<xenc:EncryptedData Type=\"http://www.w3.org/2001/04/xmlenc#Element\">")
    + (Indent(16) + "<xenc:EncryptionMethod Algorithm=\"http://www.w3.org/2001/04/xmlenc#aes256-gcm\"/>")
    + (Indent(16) + "<ds:KeyInfo>")
    + (Indent(20) + "<xenc:EncryptedKey>")
    + (Indent(24) + "<xenc:EncryptionMethodAlgorithm=\"http://www.w3.org/2001/04/xmlenc#rsa-oaep\">")
    + (Indent(24) + "<xenc:CipherData>")
    + (Indent(28) + "<xenc:CipherValue>")
    + (Indent(28) + "</xenc:CipherValue>")
    + (Indent(24) + "</xenc:CipherData>")
    + (Indent(20) + "</xenc:EncryptedKey>")
    + (Indent(16) + "</ds:KeyInfo>")
    + (Indent(16) + "<xenc:CipherData>")
    + (Indent(20) + "<xenc:CipherValue>")
    + (Indent(20) + "</xenc:CipherValue>")
    + (Indent(16) + "</xenc:CipherData>")
    + (Indent(12) + "</xenc:EncryptedData>")
    + (Indent(8) + "</eid:EncryptedAuthnRequestExtension>")

  const EXTENSIONS_OPEN := "    <samlp:Extensions>"
  const EXTENSIONS_CLOSE := "    </samlp:Extensions>"

  // --------------------------------------------------------------- fragments
  //
  // Concatenations are written right-nested, `a + (b + c)`, so that every
  // interpolated value splits the text into what comes before and after it.

  /** `Name="value"`, as the heredocs write an attribute; `value` is not escaped. */
  function Attr(name: string, value: string): string {
    name + ("=\"" + (value + "\""))
  }

  /** `<saml:NameID Format="...">value</saml:NameID>`. */
  function NameIdElement(nameIdFormat: string, value: string): string {
    "<saml:NameID " + (Attr("Format", nameIdFormat) + (">" + (value + "</saml:NameID>")))
  }

  const BEARER_CONFIRMATION := "<saml:SubjectConfirmation " + Attr("Method", CM_BEARER) + "></saml:SubjectConfirmation>"

  /** The SUBJECT heredoc: a `<saml:Subject>` element asking for the subject `value`. */
  function SubjectElement(nameIdFormat: string, value: string): string {
    "\n     <saml:Subject>\n        "
    + (NameIdElement(nameIdFormat, value)
    + ("\n        " + (BEARER_CONFIRMATION + "\n    </saml:Subject>")))
  }

  /** `$subjectStr`: the Subject element when a subject is requested, else empty. */
  function SubjectFragment(nameIdFormat: string, nameIdValueReq: Option<string>): string {
    match nameIdValueReq
    case None => ""
    case Some(v) => SubjectElement(nameIdFormat, v)
  }

  /** `$nameIDPolicyFormat`: the SP format, unless encrypted NameIDs are wanted. */
  function NameIdPolicyFormat(sp: SpData, security: SecurityData): string {
    if security.wantNameIdEncrypted == Some(true) then NAMEID_ENCRYPTED else sp.nameIdFormat
  }

  /** The NAMEIDPOLICY heredoc. */
  function NameIdPolicyElement(format: string): string {
    "\n    <samlp:NameIDPolicy\n        "
    + (Attr("Format", format) + ("\n        " + (Attr("AllowCreate", "true") + " />")))
  }

  /** `$nameIdPolicyStr`. */
  function NameIdPolicyFragment(setNameIdPolicy: bool, sp: SpData, security: SecurityData): string {
    if setNameIdPolicy then NameIdPolicyElement(NameIdPolicyFormat(sp, security)) else ""
  }

  /** Whether the organization map has the key `lang`. */
  predicate HasLanguage(organization: seq<OrganizationEntry>, lang: string) {
    exists i :: 0 <= i < |organization| && organization[i].lang == lang
  }

  /** `$organizationData[$lang]`: the entry under key `lang`. */
  function Lookup(organization: seq<OrganizationEntry>, lang: string): (r: Option<OrganizationEntry>)
    ensures r.Some? <==> HasLanguage(organization, lang)
    ensures r.Some? ==> r.value.lang == lang && r.value in organization
  {
    if organization == [] then None
    else if organization[0].lang == lang then Some(organization[0])
    else
      var r := Lookup(organization[1..], lang);
      assert forall i :: 1 <= i < |organization| ==> organization[i] == organization[1..][i - 1];
      r
  }

  /** `$lang`: "en-US" when that key exists, else the first key; None for an empty map. */
  function SelectedLanguage(organization: seq<OrganizationEntry>): Option<string> {
    if organization == [] then None
    else if HasLanguage(organization, EN_US) then Some(EN_US)
    else Some(organization[0].lang)
  }

  /** A displayname as the ProviderName: only when set and not PHP-empty. */
  function UsableDisplayName(displayName: Option<string>): Option<string> {
    match displayName
    case Some(name) => if IsEmptyString(name) then None else Some(name)
    case None => None
  }

  /** The ProviderName value: the usable displayname of the selected entry. */
  function ProviderName(organization: seq<OrganizationEntry>): Option<string> {
    match SelectedLanguage(organization)
    case None => None
    case Some(lang) =>
      match Lookup(organization, lang)
      case Some(entry) => UsableDisplayName(entry.displayName)
      case None => None
  }

  /** The PROVIDERNAME heredoc. */
  function ProviderNameAttribute(name: string): string {
    "    " + Attr("ProviderName", name)
  }

  /** `$providerNameStr`. */
  function ProviderNameFragment(organization: seq<OrganizationEntry>): string {
    match ProviderName(organization)
    case None => ""
    case Some(name) => ProviderNameAttribute(name)
  }

  const FORCE_AUTHN_ATTRIBUTE := "\n    " + Attr("ForceAuthn", "true")
  const IS_PASSIVE_ATTRIBUTE := "\n    " + Attr("IsPassive", "true")

  /** `$forceAuthnStr`. */
  function ForceAuthnFragment(forceAuthn: bool): string {
    if forceAuthn then FORCE_AUTHN_ATTRIBUTE else ""
  }

  /** `$isPassiveStr`. */
  function IsPassiveFragment(isPassive: bool): string {
    if isPassive then IS_PASSIVE_ATTRIBUTE else ""
  }

  /** `$authnComparisonAttr`: the configured comparison, "exact" by default, none when PHP-empty. */
  function ComparisonAttribute(security: SecurityData): string {
    var comparison := security.requestedAuthnContextComparison.GetOr("exact");
    if IsEmptyString(comparison) then "" else Attr("Comparison", comparison)
  }

  const CLASS_REF_OPEN := "        <saml:AuthnContextClassRef>"
  const CLASS_REF_CLOSE := "</saml:AuthnContextClassRef>\n"

  /** One AuthnContextClassRef line. */
  function ClassRefLine(classRef: string): string {
    CLASS_REF_OPEN + (classRef + CLASS_REF_CLOSE)
  }

  /** The class-reference lines the list loop appends, one per entry, in list order. */
  function ClassRefLines(refs: seq<string>): string {
    if refs == [] then "" else ClassRefLines(refs[..|refs| - 1]) + ClassRefLine(refs[|refs| - 1])
  }

  function RequestedAuthnContextOpen(comparisonAttr: string): string {
    "    <samlp:RequestedAuthnContext " + (comparisonAttr + ">\n")
  }

  const REQUESTED_AUTHN_CONTEXT_CLOSE := "    </samlp:RequestedAuthnContext>"

  /** The list branch: no leading line break, one line per class reference. */
  function RequestedAuthnContextList(comparisonAttr: string, refs: seq<string>): string {
    RequestedAuthnContextOpen(comparisonAttr) + (ClassRefLines(refs) + REQUESTED_AUTHN_CONTEXT_CLOSE)
  }

  /** The REQUESTEDAUTHN heredoc of the `true` branch (same text, cut at the same pieces as the list). */
  function RequestedAuthnContextDefault(comparisonAttr: string): string {
    "\n" + (RequestedAuthnContextOpen(comparisonAttr)
    + (ClassRefLine(AC_PASSWORD_PROTECTED_TRANSPORT) + REQUESTED_AUTHN_CONTEXT_CLOSE))
  }

  /** `$requestedAuthnStr`. */
  function RequestedAuthnContextFragment(security: SecurityData): string {
    match security.requestedAuthnContext
    case Unset => ""
    case Flag(enabled) => if enabled then RequestedAuthnContextDefault(ComparisonAttribute(security)) else ""
    case ClassRefs(refs) => RequestedAuthnContextList(ComparisonAttribute(security), refs)
  }

  /** What one extension key adds inside `<samlp:Extensions>`: only tr03130 adds anything. */
  function ExtensionBody(key: string): string {
    if key == TR03130 then TR03130_SKELETON else ""
  }

  /** What one extension key adds to `$nsArr`. */
  function ExtensionNamespaceList(key: string): seq<string> {
    if key == TR03130 then TR03130_NAMESPACES else []
  }

  function ExtensionBodies(keys: seq<string>): string {
    if keys == [] then "" else ExtensionBodies(keys[..|keys| - 1]) + ExtensionBody(keys[|keys| - 1])
  }

  /** `$nsArr` after the loop, before `array_unique`. */
  function ExtensionNamespaces(keys: seq<string>): seq<string> {
    if keys == [] then [] else ExtensionNamespaces(keys[..|keys| - 1]) + ExtensionNamespaceList(keys[|keys| - 1])
  }

  /** `$extStr`: the Extensions wrapper when there is any extension key. */
  function ExtensionsFragment(keys: seq<string>): string {
    if |keys| > 0 then EXTENSIONS_OPEN + (ExtensionBodies(keys) + EXTENSIONS_CLOSE) else ""
  }

  /** `$nsStr`: the deduplicated namespace declarations joined by single spaces. */
  function NamespaceDeclarations(keys: seq<string>): string {
    Implode(" ", ArrayUnique(ExtensionNamespaces(keys)))
  }

  const ROOT_OPEN :=
    "<samlp:AuthnRequest\n    xmlns:samlp=\"urn:oasis:names:tc:SAML:2.0:protocol\"\n    xmlns:saml=\"urn:oasis:names:tc:SAML:2.0:assertion\"\n"
  const ROOT_END := "\n</samlp:AuthnRequest>"

  /** `<saml:Issuer>value</saml:Issuer>`. */
  function IssuerElement(spEntityId: string): string {
    "<saml:Issuer>" + (spEntityId + "</saml:Issuer>")
  }

  /** The template up to the ProviderName line: namespaces, ID and Version. */
  function RootHead(nsStr: string, id: string): string {
    ROOT_OPEN + (nsStr + ("\n    " + (Attr("ID", id) + "\n    Version=\"2.0\"\n")))
  }

  /** The template's attribute lines after the flags, ending inside the Issuer line. */
  function RootTail(issueInstant: string, destination: string, protocolBinding: string, acsUrl: string): string {
    "\n    " + (Attr("IssueInstant", issueInstant)
    + ("\n    " + (Attr("Destination", destination)
    + ("\n    " + (Attr("ProtocolBinding", protocolBinding)
    + ("\n    " + (Attr("AssertionConsumerServiceURL", acsUrl) + ">\n    ")))))))
  }

  /** The template's children: Issuer, then the optional elements, then the end tag. */
  function Children(spEntityId: string, subjectStr: string, nameIdPolicyStr: string,
                    requestedAuthnStr: string, extStr: string): string
  {
    IssuerElement(spEntityId)
    + (subjectStr + (nameIdPolicyStr + (requestedAuthnStr + (extStr + ROOT_END))))
  }

  /** The AUTHNREQUEST heredoc with its fourteen interpolations. */
  function AuthnRequestTemplate(
    nsStr: string, id: string, providerNameStr: string, forceAuthnStr: string, isPassiveStr: string,
    issueInstant: string, destination: string, protocolBinding: string, acsUrl: string,
    spEntityId: string, subjectStr: string, nameIdPolicyStr: string, requestedAuthnStr: string,
    extStr: string): string
  {
    RootHead(nsStr, id)
    + (providerNameStr + (forceAuthnStr + (isPassiveStr
    + (RootTail(issueInstant, destination, protocolBinding, acsUrl)
    + Children(spEntityId, subjectStr, nameIdPolicyStr, requestedAuthnStr, extStr)))))
  }

  /** The document the constructor builds from the settings, the flags, the ID and the issue instant. */
  function Document(settings: Settings, options: RequestOptions, id: string, issueInstant: string): string {
    var sp := settings.sp;
    AuthnRequestTemplate(
      NamespaceDeclarations(settings.authnReqExt), id,
      ProviderNameFragment(settings.organization),
      ForceAuthnFragment(options.forceAuthn), IsPassiveFragment(options.isPassive),
      issueInstant, settings.idpSsoUrl, sp.acs.binding, HtmlSpecialChars(sp.acs.url),
      HtmlSpecialChars(sp.entityId),
      SubjectFragment(sp.nameIdFormat, options.nameIdValueReq),
      NameIdPolicyFragment(options.setNameIdPolicy, sp, settings.security),
      RequestedAuthnContextFragment(settings.security),
      ExtensionsFragment(settings.authnReqExt))
  }

  // ------------------------------------------------------------------- loops

  lemma ClassRefLinesStep(refs: seq<string>, i: int)
    requires 0 <= i < |refs|
    ensures ClassRefLines(refs[..i + 1]) == ClassRefLines(refs[..i]) + ClassRefLine(refs[i])
  {
    assert refs[..i + 1][..i] == refs[..i];
  }

  /** The list branch of `$requestedAuthnStr`, built by appending one line per class reference. */
  method BuildRequestedAuthnContextList(comparisonAttr: string, refs: seq<string>) returns (s: string)
    ensures s == RequestedAuthnContextList(comparisonAttr, refs)
  {
    var open := RequestedAuthnContextOpen(comparisonAttr);
    s := open;
    var i := 0;
    while i < |refs|
      invariant 0 <= i <= |refs|
      invariant s == open + ClassRefLines(refs[..i])
    {
      ClassRefLinesStep(refs, i);
      ConcatAssoc(open, ClassRefLines(refs[..i]), ClassRefLine(refs[i]));
      s := s + ClassRefLine(refs[i]);
      i := i + 1;
    }
    assert refs[..|refs|] == refs;
    ConcatAssoc(open, ClassRefLines(refs), REQUESTED_AUTHN_CONTEXT_CLOSE);
    s := s + REQUESTED_AUTHN_CONTEXT_CLOSE;
  }

  lemma ExtensionLoopStep(keys: seq<string>, i: int)
    requires 0 <= i < |keys|
    ensures ExtensionBodies(keys[..i + 1]) == ExtensionBodies(keys[..i]) + ExtensionBody(keys[i])
    ensures ExtensionNamespaces(keys[..i + 1]) == ExtensionNamespaces(keys[..i]) + ExtensionNamespaceList(keys[i])
  {
    assert keys[..i + 1][..i] == keys[..i];
  }

  /** The extension loop: `$extStr` and `$nsArr` (before `array_unique`). */
  method ProcessExtensions(keys: seq<string>) returns (extStr: string, nsArr: seq<string>)
    ensures extStr == ExtensionsFragment(keys)
    ensures nsArr == ExtensionNamespaces(keys)
  {
    nsArr := [];
    extStr := "";
    if |keys| > 0 {
      extStr := extStr + EXTENSIONS_OPEN;
      var i := 0;
      while i < |keys|
        invariant 0 <= i <= |keys|
        invariant extStr == EXTENSIONS_OPEN + ExtensionBodies(keys[..i])
        invariant nsArr == ExtensionNamespaces(keys[..i])
      {
        ExtensionLoopStep(keys, i);
        ConcatAssoc(EXTENSIONS_OPEN, ExtensionBodies(keys[..i]), ExtensionBody(keys[i]));
        if keys[i] == TR03130 {
          nsArr := nsArr + TR03130_NAMESPACES;
          extStr := extStr + TR03130_SKELETON;
        }
        i := i + 1;
      }
      assert keys[..|keys|] == keys;
      ConcatAssoc(EXTENSIONS_OPEN, ExtensionBodies(keys), EXTENSIONS_CLOSE);
      extStr := extStr + EXTENSIONS_CLOSE;
    }
  }

  /** The ProviderName block: pick "en-US" or the first key, then use that entry's displayname if usable. */
  method BuildProviderName(organizationData: seq<OrganizationEntry>) returns (providerNameStr: string)
    ensures providerNameStr == ProviderNameFragment(organizationData)
  {
    providerNameStr := "";
    if organizationData != [] {
      var lang;
      if HasLanguage(organizationData, EN_US) {
        lang := EN_US;
      } else {
        lang := organizationData[0].lang;
      }
      var entry := Lookup(organizationData, lang);
      if entry.Some? && entry.value.displayName.Some? && !IsEmptyString(entry.value.displayName.value) {
        providerNameStr := ProviderNameAttribute(entry.value.displayName.value);
      }
    }
  }

  /** The RequestedAuthnContext block: the comparison attribute, then the `true` or the list branch. */
  method BuildRequestedAuthnContext(security: SecurityData) returns (requestedAuthnStr: string)
    ensures requestedAuthnStr == RequestedAuthnContextFragment(security)
  {
    requestedAuthnStr := "";
    if security.requestedAuthnContext != Unset && security.requestedAuthnContext != Flag(false) {
      var authnComparison := "exact";
      if security.requestedAuthnContextComparison.Some? {
        authnComparison := security.requestedAuthnContextComparison.value;
      }
      var authnComparisonAttr := "";
      if !IsEmptyString(authnComparison) {
        authnComparisonAttr := Attr("Comparison", authnComparison);
      }
      if security.requestedAuthnContext == Flag(true) {
        requestedAuthnStr := RequestedAuthnContextDefault(authnComparisonAttr);
      } else {
        requestedAuthnStr := BuildRequestedAuthnContextList(authnComparisonAttr, security.requestedAuthnContext.refs);
      }
    }
  }

  /** The Subject block: a `<saml:Subject>` only when a subject is requested. */
  method BuildSubject(nameIdFormat: string, nameIdValueReq: Option<string>) returns (subjectStr: string)
    ensures subjectStr == SubjectFragment(nameIdFormat, nameIdValueReq)
  {
    subjectStr := "";
    if nameIdValueReq.Some? {
      subjectStr := SubjectElement(nameIdFormat, nameIdValueReq.value);
    }
  }

  /** The NameIDPolicy block: omitted unless asked for; the encrypted format when the SP wants it. */
  method BuildNameIdPolicy(setNameIdPolicy: bool, spData: SpData, security: SecurityData) returns (nameIdPolicyStr: string)
    ensures nameIdPolicyStr == NameIdPolicyFragment(setNameIdPolicy, spData, security)
  {
    nameIdPolicyStr := "";
    if setNameIdPolicy {
      var nameIdPolicyFormat := spData.nameIdFormat;
      if security.wantNameIdEncrypted == Some(true) {
        nameIdPolicyFormat := NAMEID_ENCRYPTED;
      }
      nameIdPolicyStr := NameIdPolicyElement(nameIdPolicyFormat);
    }
  }

  /** The Extensions block and the space-separated, de-duplicated namespace declarations. */
  method BuildExtensions(keys: seq<string>) returns (extStr: string, nsStr: string)
    ensures extStr == ExtensionsFragment(keys)
    ensures nsStr == NamespaceDeclarations(keys)
  {
    var nsArr;
    extStr, nsArr := ProcessExtensions(keys);
    nsArr := ArrayUnique(nsArr);
    nsStr := Implode(" ", nsArr);
  }

  /** The ID attribute line of the template carries the given ID. */
  lemma DocumentCarriesId(settings: Settings, options: RequestOptions, id: string, issueInstant: string)
    ensures Contains(Document(settings, options, id, issueInstant), Attr("ID", id))
  {
    var nsStr := NamespaceDeclarations(settings.authnReqExt);
    var idAttr := Attr("ID", id);
    ContainsFront(idAttr, "\n    Version=\"2.0\"\n");
    ContainsBehind("\n    ", idAttr + "\n    Version=\"2.0\"\n", idAttr);
    ContainsBehind(nsStr, "\n    " + (idAttr + "\n    Version=\"2.0\"\n"), idAttr);
    ContainsBehind(ROOT_OPEN, nsStr + ("\n    " + (idAttr + "\n    Version=\"2.0\"\n")), idAttr);
    var d := Document(settings, options, id, issueInstant);
    var head := RootHead(nsStr, id);
    ContainsBefore(head, d[|head|..], idAttr);
    assert d == head + d[|head|..];
  }

  /** The bytes `getRequest` base64-encodes: the document's bytes, deflated when asked to. */
  function RequestPayload(xml: string, deflate: bool, gzdeflate: seq<byte> -> seq<byte>): seq<byte> {
    if deflate then gzdeflate(Utf8.Encode(xml)) else Utf8.Encode(xml)
  }

  // ------------------------------------------------------------------ object

  /**
   * A built request. Its ID and document are set once, by the constructor,
   * and only read afterwards.
   */
  class AuthnRequest {
    const settings: Settings
    const id: string
    const authnRequest: string
    ghost const options: RequestOptions
    ghost const issueInstant: string

    /** The stored document is the one built from the stored inputs. */
    ghost predicate Valid() {
      authnRequest == Document(settings, options, id, issueInstant)
    }

    /**
     * Builds the request. `id` stands for `Utils::generateUniqueID()` and
     * `issueInstant` for `Utils::parseTime2SAML(time())`.
     */
    constructor (settings: Settings, id: string, issueInstant: string,
                 forceAuthn: bool := false, isPassive: bool := false,
                 setNameIdPolicy: bool := true, nameIdValueReq: Option<string> := None)
      ensures Valid()
      ensures this.settings == settings && this.id == id && this.issueInstant == issueInstant
      ensures options == RequestOptions(forceAuthn, isPassive, setNameIdPolicy, nameIdValueReq)
    {
      var spData := settings.sp;
      var security := settings.security;

      var subjectStr := BuildSubject(spData.nameIdFormat, nameIdValueReq);
      var nameIdPolicyStr := BuildNameIdPolicy(setNameIdPolicy, spData, security);
      var providerNameStr := BuildProviderName(settings.organization);

      var forceAuthnStr := "";
      if forceAuthn {
        forceAuthnStr := FORCE_AUTHN_ATTRIBUTE;
      }

      var isPassiveStr := "";
      if isPassive {
        isPassiveStr := IS_PASSIVE_ATTRIBUTE;
      }

      var requestedAuthnStr := BuildRequestedAuthnContext(security);

      var extStr, nsStr := BuildExtensions(settings.authnReqExt);

      var spEntityId := HtmlSpecialChars(spData.entityId);
      var acsUrl := HtmlSpecialChars(spData.acs.url);
      var destination := settings.idpSsoUrl;
      var request := AuthnRequestTemplate(
        nsStr, id, providerNameStr, forceAuthnStr, isPassiveStr, issueInstant, destination,
        spData.acs.binding, acsUrl, spEntityId, subjectStr, nameIdPolicyStr, requestedAuthnStr, extStr);

      this.settings := settings;
      this.options := RequestOptions(forceAuthn, isPassive, setNameIdPolicy, nameIdValueReq);
      this.issueInstant := issueInstant;
      this.id := id;
      this.authnRequest := request;
    }

    /** `getId()`: the ID the document's ID attribute carries. */
    function GetId(): (r: string)
      requires Valid()
      ensures Contains(authnRequest, Attr("ID", r))
    {
      DocumentCarriesId(settings, options, id, issueInstant);
      id
    }

    /**
     * `getRequest($deflate)`: the base64 of the document's bytes, deflated when
     * `deflate` says so or, when it is left out, when the settings compress
     * requests. `gzdeflate` stands for PHP's raw DEFLATE.
     */
    method GetRequest(gzdeflate: seq<byte> -> seq<byte>, deflate: Option<bool> := None) returns (r: string)
      ensures r == Base64.Encode(RequestPayload(authnRequest, deflate.GetOr(settings.compressRequests), gzdeflate))
      ensures Base64.Decode(r) == Some(RequestPayload(authnRequest, deflate.GetOr(settings.compressRequests), gzdeflate))
      ensures forall i :: 0 <= i < |r| ==> Base64.IsBase64Char(r[i])
      ensures !deflate.GetOr(settings.compressRequests) ==>
        exists bs :: Base64.Decode(r) == Some(bs) && Utf8.Decode(bs) == Some(authnRequest)
    {
      var subject := Utf8.Encode(authnRequest);
      var doDeflate := settings.compressRequests;
      if deflate.Some? {
        doDeflate := deflate.value;
      }
      if doDeflate {
        subject := gzdeflate(Utf8.Encode(authnRequest));
      }
      r := Base64.Encode(subject);
      Base64.DecodeEncode(subject);
      if !doDeflate {
        Utf8.DecodeEncode(authnRequest);
      }
    }

    /** `getXML()`: the stored document, unchanged. */
    function GetXml(): (xml: string)
      requires Valid()
      ensures xml == Document(settings, options, id, issueInstant)
    {
      authnRequest
    }
  }
}
