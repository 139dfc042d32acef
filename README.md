# SAML 2.0 AuthnRequest builder

This project models how the service-provider side of the PHP SAML toolkit
builds a SAML 2.0 authentication request (`<samlp:AuthnRequest>`, section
3.4.1 of the OASIS SAML 2.0 Core specification). The source is the class
`OneLogin\Saml2\AuthnRequest` in `src/Saml2/AuthnRequest.php`.

- **The constructor** reads the service-provider data, the security data,
  the organization map and the request extensions from the settings. From
  these and its four per-call flags it builds each optional part of the
  request:
  - the `ForceAuthn` and `IsPassive` attributes;
  - `ProviderName`, taken from the "en-US" organization entry or else the
    first one;
  - `<saml:Subject>`;
  - `<samlp:NameIDPolicy>`;
  - `<samlp:RequestedAuthnContext>`;
  - the `<samlp:Extensions>` block with the BSI TR-03130 skeleton, plus the
    namespace declarations that block needs.

  It then fills the request template with these parts and stores the ID and
  the finished XML document.
- **`getId()` and `getXML()`** return what the constructor stored.
- **`getRequest()`** returns the base64 encoding of the document's bytes. It
  first deflates them when the caller asks for it, or, when the caller does
  not say, when the settings compress requests.

The Dafny modules:

| module | file | what it holds |
|---|---|---|
| `Wrappers` | `wrappers.dfy` | `Option` |
| `Bytes` | `bytes.dfy` | the `byte` type |
| `Utf8` | `utf8.dfy` | how PHP's strings are stored as bytes: UTF-8 encoding, decoding and their round trip |
| `Base64` | `base64.dfy` | `base64_encode` (section 4 of RFC 4648), a decoder and their round trip |
| `Php` | `php.dfy` | the PHP library functions the builder uses: `empty` on strings, `htmlspecialchars(…, ENT_QUOTES)`, `array_unique` and `implode` |
| `Strings` | `strings.dfy` | prefix, suffix, containment and "inserted at one place" on strings, with their lemmas |
| `Saml2` | `saml2.dfy` | see below |
| `AuthnRequestProperties` | `properties.dfy` | the properties of the fragments and of the whole document |

`Saml2` holds:
- the settings as datatypes;
- one pure function per fragment of the document;
- `Document`, the whole template filled in;
- the imperative steps of the constructor as methods, each proved equal to
  its fragment function;
- the class `AuthnRequest`.

`Settings` is passed in as a value. It stands for the settings object, which
the builder only reads.

The generated ID and the issue instant are constructor parameters. In the
source they come from `Utils::generateUniqueID()` and from
`Utils::parseTime2SAML(time())`.

`gzdeflate` is a function parameter of `GetRequest`.

## Model

| member | source | states |
|---|---|---|
| Saml2.AuthnRequest.constructor | src/Saml2/AuthnRequest.php:56-213 | the stored document is the template filled with the fragments built from the settings, the ID, the issue instant and the four flags (`Valid()`); the stored ID and settings are the given ones |
| Saml2.AuthnRequest.GetId | src/Saml2/AuthnRequest.php:243-246 | the returned ID is the value of an `ID="…"` attribute in the stored document |
| Saml2.AuthnRequest.GetXml | src/Saml2/AuthnRequest.php:253-256 | the returned XML is the document built from the request's inputs; the lemmas of `AuthnRequestProperties` say what that document holds |
| Saml2.AuthnRequest.GetRequest | src/Saml2/AuthnRequest.php:222-236 | the result is the base64 encoding of the document's bytes, deflated exactly when `deflate` (or, when it is absent, the compress-requests setting) is true; it therefore uses only base64 symbols and decodes back to those bytes; when nothing is deflated, the decoded bytes are the UTF-8 of the document |
| Saml2.DocumentCarriesId | src/Saml2/AuthnRequest.php:195-209 | the document contains `ID="<id>"` for the ID it was built with |
| Saml2.Lookup | src/Saml2/AuthnRequest.php:102 | looking a language up in the organization map returns an entry with that key, and finds one exactly when the map has the key |
| Saml2.BuildRequestedAuthnContextList | src/Saml2/AuthnRequest.php:145-149 | the loop that appends one `AuthnContextClassRef` line per configured class reference yields the list form of the element |
| Saml2.ProcessExtensions | src/Saml2/AuthnRequest.php:154-188 | the extension loop yields the Extensions fragment of the keys and the namespace list before de-duplication |
| Php.HtmlSpecialChars | src/Saml2/AuthnRequest.php:192-193 | the escaped text contains no raw `"`, `'`, `<` or `>` and is no shorter than its input |
| Php.HtmlSpecialCharsEscapesAmpersands | src/Saml2/AuthnRequest.php:192-193 | every `&` in the escaped text begins one of the five entities, so no raw `&` is left |
| Php.DecodeHtmlSpecialChars | src/Saml2/AuthnRequest.php:192-193 | unescaping the escaped text gives back the original text, so escaping loses nothing |
| Php.HtmlSpecialCharsKeepsPlainText | src/Saml2/AuthnRequest.php:192-193 | text without special characters is written unchanged |
| Php.ArrayUnique | src/Saml2/AuthnRequest.php:189 | the result has no repeated element, and it has the same elements as its input |
| Php.ArrayUniqueKeepsFirstOccurrenceOrder | src/Saml2/AuthnRequest.php:189 | the kept elements are in the order of their first occurrences in the input |
| Php.ArrayUniqueOfDistinct | src/Saml2/AuthnRequest.php:189 | a list without repeats is left as it is |
| Php.ArrayUniqueAbsorbs | src/Saml2/AuthnRequest.php:189 | appending only elements that are already present does not change the result |
| Base64.Encode | src/Saml2/AuthnRequest.php:234 | the encoding has length 4·⌈n/3⌉ and uses only base64 symbols |
| Base64.DecodeEncode | src/Saml2/AuthnRequest.php:234 | decoding the encoding of any byte string gives back that byte string |
| Base64.EncodeDecode | src/Saml2/AuthnRequest.php:234 | a text that decodes to some bytes is exactly their encoding, so no other text decodes to the request's payload |
| Utf8.Encode | src/Saml2/AuthnRequest.php:224 | a string of n characters is stored in n to 4n bytes |
| Utf8.DecodeEncode | src/Saml2/AuthnRequest.php:224 | the document's characters can be read back from its bytes |
| AuthnRequestProperties.ForceAuthnGate | src/Saml2/AuthnRequest.php:109-115 | the ForceAuthn fragment holds `ForceAuthn="true"` if and only if the flag is set, and it is empty otherwise |
| AuthnRequestProperties.IsPassiveGate | src/Saml2/AuthnRequest.php:117-123 | the IsPassive fragment holds `IsPassive="true"` if and only if the flag is set, and it is empty otherwise |
| AuthnRequestProperties.SubjectGate | src/Saml2/AuthnRequest.php:66-75 | the subject fragment is non-empty if and only if a subject is requested; it then holds the NameID element with the SP's format and the requested value, and the bearer confirmation method |
| AuthnRequestProperties.NameIdPolicyGate | src/Saml2/AuthnRequest.php:77-90 | the NameIDPolicy fragment is non-empty if and only if the flag is set; its Format is the encrypted-NameID format when the SP wants encrypted NameIDs and the SP's NameID format otherwise; it sets `AllowCreate="true"` |
| AuthnRequestProperties.LookupFindsFirst | src/Saml2/AuthnRequest.php:96-102 | a language lookup returns the first entry with that key |
| AuthnRequestProperties.ProviderNameOfEmptyOrganization | src/Saml2/AuthnRequest.php:95 | an empty organization map gives no ProviderName |
| AuthnRequestProperties.ProviderNamePrefersEnUs | src/Saml2/AuthnRequest.php:97-98 | when the map has an "en-US" entry, ProviderName comes from that entry |
| AuthnRequestProperties.ProviderNameFallsBackToFirst | src/Saml2/AuthnRequest.php:99-100 | without an "en-US" entry, ProviderName comes from the first entry |
| AuthnRequestProperties.UsableDisplayNameIsPhpNonEmpty | src/Saml2/AuthnRequest.php:102 | a displayname is used if and only if it is set and is neither "" nor "0" (PHP's `empty`), and it is used unchanged |
| AuthnRequestProperties.ProviderNameGate | src/Saml2/AuthnRequest.php:93-107 | the ProviderName fragment is non-empty if and only if a usable displayname was chosen, and it then holds `ProviderName="<displayname>"` |
| AuthnRequestProperties.ProviderNameZeroExample | src/Saml2/AuthnRequest.php:102 | an "en-US" displayname of "0" gives no ProviderName, even when another language has a usable name |
| AuthnRequestProperties.ComparisonAttributeCases | src/Saml2/AuthnRequest.php:127-135 | the Comparison attribute is `Comparison="exact"` when no comparison is set, is empty for a PHP-empty comparison, and otherwise carries the configured comparison |
| AuthnRequestProperties.RequestedAuthnContextGate | src/Saml2/AuthnRequest.php:125-151 | the RequestedAuthnContext fragment is empty if and only if the setting is unset or `false` |
| AuthnRequestProperties.RequestedAuthnContextTrue | src/Saml2/AuthnRequest.php:137-143 | the setting `true` requests exactly the PasswordProtectedTransport class, on its own line |
| AuthnRequestProperties.ClassRefLinesSingle | src/Saml2/AuthnRequest.php:147 | a one-element list yields exactly that element's `AuthnContextClassRef` line |
| AuthnRequestProperties.RequestedAuthnContextEmptyList | src/Saml2/AuthnRequest.php:144-150 | an empty list still yields an element, with no class reference in it |
| AuthnRequestProperties.ClassRefLinesCons | src/Saml2/AuthnRequest.php:146-148 | the lines of a list are the first reference's line followed by the lines of the rest |
| AuthnRequestProperties.ParseClassRefLine | src/Saml2/AuthnRequest.php:147 | reading one line back yields its class reference and then whatever follows |
| AuthnRequestProperties.ClassRefLinesReadBack | src/Saml2/AuthnRequest.php:145-149 | the class references, when none contains `<`, are read back from the generated lines in order and in full |
| AuthnRequestProperties.ExtensionsGate | src/Saml2/AuthnRequest.php:157-188 | the Extensions fragment is non-empty if and only if at least one extension is configured |
| AuthnRequestProperties.ExtensionNamespacesShape | src/Saml2/AuthnRequest.php:159-186 | without a tr03130 key, the loop adds neither namespaces nor body; with one, all three TR-03130 namespaces are added; nothing else is ever added |
| AuthnRequestProperties.UnrecognisedExtensionsAreEmpty | src/Saml2/AuthnRequest.php:157-188 | keys other than tr03130 yield an empty `<samlp:Extensions>` element and no namespace declarations |
| AuthnRequestProperties.Tr03130SkeletonOnce | src/Saml2/AuthnRequest.php:159-186 | with distinct keys that include tr03130, the extension body is exactly one TR-03130 skeleton |
| AuthnRequestProperties.Tr03130NamespacesDistinct | src/Saml2/AuthnRequest.php:163-165 | the three TR-03130 namespace declarations are distinct |
| AuthnRequestProperties.UniqueExtensionNamespaces | src/Saml2/AuthnRequest.php:154-189 | after `array_unique` the namespace list is exactly the three TR-03130 declarations in order when tr03130 is configured, and is empty otherwise, however often the key occurs |
| AuthnRequestProperties.NamespaceDeclarationsText | src/Saml2/AuthnRequest.php:189-190 | the namespace text on the root element is the three TR-03130 declarations joined by single spaces, or empty |
| AuthnRequestProperties.TemplateFraming | src/Saml2/AuthnRequest.php:195-209 | whatever fills the template, the result starts with the `<samlp:AuthnRequest` opening and its two protocol namespaces, and ends with `</samlp:AuthnRequest>` |
| AuthnRequestProperties.TemplateContainsTail | src/Saml2/AuthnRequest.php:203-206 | text inside the closing attribute lines of the root element is in the document |
| AuthnRequestProperties.TemplateContainsChildren | src/Saml2/AuthnRequest.php:207 | text inside the child elements is in the document |
| AuthnRequestProperties.RootTailCarriesValues | src/Saml2/AuthnRequest.php:203-206 | the closing attribute lines carry IssueInstant, Destination, ProtocolBinding and AssertionConsumerServiceURL with the given values |
| AuthnRequestProperties.DocumentCarriesRootAttributes | src/Saml2/AuthnRequest.php:192-206 | the document carries the issue instant, the IdP SSO URL as Destination and the ACS binding as given, and the ACS URL HTML-escaped |
| AuthnRequestProperties.DocumentCarriesIssuer | src/Saml2/AuthnRequest.php:192-207 | the document holds a `<saml:Issuer>` element with the HTML-escaped SP entity ID |
| AuthnRequestProperties.DocumentFraming | src/Saml2/AuthnRequest.php:195-209 | every request document starts with the root element's opening and ends with its closing tag |
| AuthnRequestProperties.ForceAuthnOnlyInsertsItsAttribute | src/Saml2/AuthnRequest.php:109-115 | setting `forceAuthn` changes the document only by inserting the `ForceAuthn="true"` line at one place |
| AuthnRequestProperties.IsPassiveOnlyInsertsItsAttribute | src/Saml2/AuthnRequest.php:117-123 | setting `isPassive` changes the document only by inserting the `IsPassive="true"` line at one place |
| AuthnRequestProperties.TemplateSubjectSlot | src/Saml2/AuthnRequest.php:207 | filling the empty subject slot of the template with a fragment inserts exactly that fragment |
| AuthnRequestProperties.SubjectOnlyInsertsItsElement | src/Saml2/AuthnRequest.php:66-75 | requesting a subject changes the document only by inserting its `<saml:Subject>` fragment |
| AuthnRequestProperties.TemplateInsertsInChildren | src/Saml2/AuthnRequest.php:207 | an insertion into the child elements is an insertion into the document |
| AuthnRequestProperties.TemplateNameIdPolicySlot | src/Saml2/AuthnRequest.php:207 | filling the empty NameIDPolicy slot of the template inserts exactly that fragment |
| AuthnRequestProperties.NameIdPolicyOnlyInsertsItsElement | src/Saml2/AuthnRequest.php:77-90 | setting `setNameIdPolicy` changes the document only by inserting the `<samlp:NameIDPolicy>` element |
| AuthnRequestProperties.IssuerTagCanRepeat | src/Saml2/AuthnRequest.php:71 | the requested subject value is written unescaped, so a subject of `<saml:Issuer>` makes the Issuer start tag occur twice in the document, once from the Issuer line and once from the subject |

## Left out

- The settings object (`Settings`: loading, validation, and the `getSPData`, `getSecurityData`, `getOrganization`, `getAuthnReqExt`, `getIdPSSOUrl` and `shouldCompressRequests` accessors) is not part of this model. The values these accessors return are fields of the `Settings` datatype.
- The ID generator and the clock (`Utils::generateUniqueID`, `Utils::parseTime2SAML(time())`) are not part of this model. Their results are constructor parameters, so the model promises nothing about ID uniqueness or about the timestamp format.
- `gzdeflate` (raw DEFLATE, RFC 1951) is a function parameter of `GetRequest`. The model does not state that inflating the deflated payload gives back the document. It also treats `gzdeflate` as total: its `false` on failure, which `base64_encode` turns into "", is not modelled.
- `Constants::NAMEID_ENCRYPTED` is taken as `urn:oasis:names:tc:SAML:2.0:nameid-format:encrypted`. `Constants.php` is not part of this model.
- PHP strings are byte strings. The model treats the document as Unicode text stored as UTF-8. `htmlspecialchars`'s handling of invalid UTF-8 (it returns "") is not modelled.
- `wantNameIdEncrypted` is an `Option<bool>`. The source's truthiness test on arbitrary values (non-empty strings, non-zero numbers) is not modelled.
- `requestedAuthnContext` is unset, a boolean or a list of strings. Other PHP values that the source would iterate or print are not modelled.
- The `requestedAuthnContextComparison` setting is a string. A null value in PHP counts as unset and is modelled as `None`.
- The organization map is a sequence in PHP's key order. A lookup takes the first entry with the key, which is the only one when the keys are distinct, as in a PHP array. PHP's loose `in_array` comparison is modelled as string equality, which it is for non-numeric string keys. Integer keys are not modelled.
- Only the keys of the extension map are modelled, because the source never reads the values. The keys of a PHP map are distinct, so `Tr03130SkeletonOnce` requires distinct keys.
- Well-formedness is not claimed. The TR-03130 skeleton is written as the source writes it. One of its tags lacks the space before `Algorithm`, and the values put into the template are written without escaping, except the SP entity ID and the ACS URL. These values are the organization displayname, the NameID format and value, the ProtocolBinding, the Destination, the comparison and the class references.
- The code writes `ProtocolBinding` unescaped and only escapes the entity ID and the ACS URL. The model follows the code.
- Saml2.AuthnRequest.GetId: proves that the document contains `ID="<id>"`, not that the ID attribute occurs exactly once. The unescaped values listed above can repeat that text, in the same way that `IssuerTagCanRepeat` shows a second Issuer start tag.
- AuthnRequestProperties.DocumentCarriesIssuer: proves that the Issuer element with the escaped entity ID is present, not that it is the only `<saml:Issuer>` in the document. As written, the requested NameID value and the other unescaped values can contain that tag, and IssuerTagCanRepeat exhibits a second one. Uniqueness under the condition that those values contain no `<` is not proved. It would need a no-occurrence argument over every literal of the template, including the TR-03130 skeleton.
- AuthnRequestProperties.ForceAuthnOnlyInsertsItsAttribute: states "the flag only inserts its attribute" instead of "the document contains `ForceAuthn="true"` if and only if the flag is set". Unescaped values such as ProviderName can contain that text without the flag. The same applies to IsPassiveOnlyInsertsItsAttribute, SubjectOnlyInsertsItsElement and NameIdPolicyOnlyInsertsItsElement. The if-and-only-if is proved for each fragment, in the corresponding `…Gate` lemma.
- The unused `RobRichards\XMLSecLibs` imports and the XML namespace constants of other classes are not part of this model.
