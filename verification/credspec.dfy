/** Credential specs for gMSA accounts, their S3 location, and the reference a container
    definition carries to them. The credential spec is the fixed JSON template of the
    copy scripts, held as a record of its string fields; a placeholder substitution is
    Python's `str.replace` applied to every field. */
module Credspec {
  import opened Wrappers
  import opened Strings

  /** The four placeholders of a template. */
  datatype Placeholders = Placeholders(domain: string, netbios: string, gmsa: string, secret: string)

  const DomainPlaceholder := "DOMAINNAME"
  const NetbiosPlaceholder := "NETBIOS_NAME"
  const GmsaPlaceholder := "GMSA_NAME"
  const SecretPlaceholder := "GMSA_SECRET_ARN"
  const Ph := Placeholders(DomainPlaceholder, NetbiosPlaceholder, GmsaPlaceholder, SecretPlaceholder)

  /** One entry of `GroupManagedServiceAccounts`. */
  datatype ServiceAccount = ServiceAccount(name: string, scope: string)

  /** The fields of a credential spec. */
  datatype CredSpec = CredSpec(
    cmsPlugins: seq<string>,
    sid: string,
    machineAccountName: string,
    guid: string,
    dnsTreeName: string,
    dnsName: string,
    netBiosName: string,
    accounts: seq<ServiceAccount>,
    portableCcgVersion: string,
    pluginGuid: string,
    credentialArn: string)

  /** The text of the template that no substitution is meant to touch. */
  datatype FixedText = FixedText(plugin: string, sid: string, guid: string, version: string, pluginGuid: string)

  const Sid := "S-1-5-21-2421564706-1737585382-3854682907"
  const Guid := "6a91814c-e151-4fb0-96f0-f517566fc883"
  const PluginGuid := "{859E1386-BDB4-49E8-85C7-3070B13920E1}"
  const Fixed := FixedText("ActiveDirectory", Sid, Guid, "1", PluginGuid)

  /** The layout of the template, with the fixed text `fx` and the given values in the
      positions of the four placeholders. */
  function Shape(fx: FixedText, directoryName: string, netbiosName: string, gmsaName: string,
                 secretArn: string): CredSpec
  {
    CredSpec([fx.plugin], fx.sid, gmsaName, fx.guid, directoryName, directoryName, netbiosName,
             [ServiceAccount(gmsaName, directoryName), ServiceAccount(gmsaName, netbiosName)],
             fx.version, fx.pluginGuid, secretArn)
  }

  /** A template: the layout with the placeholders themselves in their positions. */
  function TemplateOf(fx: FixedText, ph: Placeholders): CredSpec {
    Shape(fx, ph.domain, ph.netbios, ph.gmsa, ph.secret)
  }

  /** The template both copy scripts start from. */
  const Template := TemplateOf(Fixed, Ph)

  /** `text.replace(p, v)` on the serialised spec: every string field is rewritten,
      and nothing else is touched. */
  function Substitute(c: CredSpec, p: string, v: string): CredSpec
    requires |p| > 0
  {
    CredSpec(
      ReplaceEach(c.cmsPlugins, p, v),
      ReplaceAll(c.sid, p, v),
      ReplaceAll(c.machineAccountName, p, v),
      ReplaceAll(c.guid, p, v),
      ReplaceAll(c.dnsTreeName, p, v),
      ReplaceAll(c.dnsName, p, v),
      ReplaceAll(c.netBiosName, p, v),
      ReplaceAccounts(c.accounts, p, v),
      ReplaceAll(c.portableCcgVersion, p, v),
      ReplaceAll(c.pluginGuid, p, v),
      ReplaceAll(c.credentialArn, p, v))
  }

  /** `replace` on every string of a list. */
  function ReplaceEach(ss: seq<string>, p: string, v: string): seq<string>
    requires |p| > 0
    decreases |ss|
  {
    if |ss| == 0 then [] else [ReplaceAll(ss[0], p, v)] + ReplaceEach(ss[1..], p, v)
  }

  /** `replace` on both strings of every account entry. */
  function ReplaceAccounts(accounts: seq<ServiceAccount>, p: string, v: string): seq<ServiceAccount>
    requires |p| > 0
    decreases |accounts|
  {
    if |accounts| == 0 then []
    else
      [ServiceAccount(ReplaceAll(accounts[0].name, p, v), ReplaceAll(accounts[0].scope, p, v))]
      + ReplaceAccounts(accounts[1..], p, v)
  }

  /** Placeholders that can be substituted for. */
  predicate NonEmpty(ph: Placeholders) {
    |ph.domain| > 0 && |ph.netbios| > 0 && |ph.gmsa| > 0 && |ph.secret| > 0
  }

  /** The substitutions of `create_credspec` applied to `c`, in its order: domain,
      NetBIOS name, account name, secret ARN. */
  function Substitutions(ph: Placeholders, c: CredSpec, directoryName: string, netbiosName: string,
                         gmsaName: string, secretArn: string): CredSpec
    requires NonEmpty(ph)
  {
    var c1 := Substitute(c, ph.domain, directoryName);
    var c2 := Substitute(c1, ph.netbios, netbiosName);
    var c3 := Substitute(c2, ph.gmsa, gmsaName);
    Substitute(c3, ph.secret, secretArn)
  }

  /** `create_credspec`. */
  function CreateCredspec(directoryName: string, netbiosName: string, gmsaName: string,
                          secretArn: string): CredSpec
  {
    Substitutions(Ph, Template, directoryName, netbiosName, gmsaName, secretArn)
  }

  /** A value in which none of the placeholders `ph` occurs. */
  predicate PlainFor(ph: Placeholders, v: string) {
    && !Contains(v, ph.domain)
    && !Contains(v, ph.netbios)
    && !Contains(v, ph.gmsa)
    && !Contains(v, ph.secret)
  }

  /** A value in which no placeholder of the template occurs. */
  predicate Plain(v: string) {
    PlainFor(Ph, v)
  }

  /** The spec a caller expects for the given values: each in the positions its
      placeholder marks. */
  function Intended(directoryName: string, netbiosName: string, gmsaName: string,
                    secretArn: string): CredSpec
  {
    Shape(Fixed, directoryName, netbiosName, gmsaName, secretArn)
  }

  /** Placeholders no substitution disturbs before its own turn: none occurs in a
      placeholder substituted ahead of it, and the account and secret placeholders do
      not occur in each other. */
  predicate Apart(ph: Placeholders) {
    && NonEmpty(ph)
    && !Contains(ph.netbios, ph.domain) && !Contains(ph.gmsa, ph.domain) && !Contains(ph.secret, ph.domain)
    && !Contains(ph.gmsa, ph.netbios) && !Contains(ph.secret, ph.netbios)
    && !Contains(ph.gmsa, ph.secret) && !Contains(ph.secret, ph.gmsa)
  }

  /** Fixed text in which the pattern `p` does not occur. */
  predicate Keeps(fx: FixedText, p: string) {
    && !Contains(fx.plugin, p) && !Contains(fx.sid, p) && !Contains(fx.guid, p)
    && !Contains(fx.version, p) && !Contains(fx.pluginGuid, p)
  }

  /** Fixed text in which no placeholder occurs. */
  predicate Untouched(fx: FixedText, ph: Placeholders) {
    Keeps(fx, ph.domain) && Keeps(fx, ph.netbios) && Keeps(fx, ph.gmsa) && Keeps(fx, ph.secret)
  }

  /** A substitution over a spec of the template's layout: the fixed text stays, each
      value position gets what `replace` makes of it. */
  lemma SubstituteShape(fx: FixedText, d: string, n: string, g: string, a: string, p: string, v: string)
    requires |p| > 0 && Keeps(fx, p)
    ensures Substitute(Shape(fx, d, n, g, a), p, v)
         == Shape(fx, ReplaceAll(d, p, v), ReplaceAll(n, p, v), ReplaceAll(g, p, v), ReplaceAll(a, p, v))
  {
    ReplaceOne(fx.plugin, p, v);
    ReplaceTwo(ServiceAccount(g, d), ServiceAccount(g, n), p, v);
  }

  lemma ReplaceOne(s: string, p: string, v: string)
    requires |p| > 0
    ensures ReplaceEach([s], p, v) == [ReplaceAll(s, p, v)]
  {
    assert [s][1..] == [];
  }

  lemma ReplaceTwo(x: ServiceAccount, y: ServiceAccount, p: string, v: string)
    requires |p| > 0
    ensures ReplaceAccounts([x, y], p, v)
         == [ServiceAccount(ReplaceAll(x.name, p, v), ReplaceAll(x.scope, p, v)),
             ServiceAccount(ReplaceAll(y.name, p, v), ReplaceAll(y.scope, p, v))]
  {
    var y' := ServiceAccount(ReplaceAll(y.name, p, v), ReplaceAll(y.scope, p, v));
    assert [y][1..] == [];
    assert ReplaceAccounts([y], p, v) == [y'];
    assert [x, y][1..] == [y];
  }

  /** Substituting the domain into a template. */
  lemma DomainStep(fx: FixedText, ph: Placeholders, d: string)
    requires Apart(ph) && Untouched(fx, ph)
    ensures Substitute(TemplateOf(fx, ph), ph.domain, d) == Shape(fx, d, ph.netbios, ph.gmsa, ph.secret)
  {
    ReplaceWhole(ph.domain, d);
    SubstituteShape(fx, ph.domain, ph.netbios, ph.gmsa, ph.secret, ph.domain, d);
  }

  /** Substituting the NetBIOS name once the domain is in. */
  lemma NetbiosStep(fx: FixedText, ph: Placeholders, d: string, n: string)
    requires Apart(ph) && Untouched(fx, ph)
    requires ReplaceAll(d, ph.netbios, n) == d
    ensures Substitute(Shape(fx, d, ph.netbios, ph.gmsa, ph.secret), ph.netbios, n)
         == Shape(fx, d, n, ph.gmsa, ph.secret)
  {
    ReplaceWhole(ph.netbios, n);
    SubstituteShape(fx, d, ph.netbios, ph.gmsa, ph.secret, ph.netbios, n);
  }

  /** Substituting the account name once the domain and NetBIOS name are in; the
      secret position holds its placeholder or a plain value. */
  lemma GmsaStep(fx: FixedText, ph: Placeholders, d: string, n: string, g: string, a: string)
    requires Apart(ph) && Untouched(fx, ph)
    requires ReplaceAll(n, ph.gmsa, g) == n && ReplaceAll(a, ph.gmsa, g) == a
    ensures Substitute(Shape(fx, d, n, ph.gmsa, a), ph.gmsa, g)
         == Shape(fx, ReplaceAll(d, ph.gmsa, g), n, g, a)
  {
    ReplaceWhole(ph.gmsa, g);
    SubstituteShape(fx, d, n, ph.gmsa, a, ph.gmsa, g);
  }

  /** Substituting the secret ARN once the other values are in. */
  lemma SecretStep(fx: FixedText, ph: Placeholders, d: string, n: string, g: string, a: string)
    requires Apart(ph) && Untouched(fx, ph)
    requires ReplaceAll(d, ph.secret, a) == d && ReplaceAll(n, ph.secret, a) == n
    requires ReplaceAll(g, ph.secret, a) == g
    ensures Substitute(Shape(fx, d, n, g, ph.secret), ph.secret, a) == Shape(fx, d, n, g, a)
  {
    ReplaceWhole(ph.secret, a);
    SubstituteShape(fx, d, n, g, ph.secret, ph.secret, a);
  }

  /** With placeholders kept apart, fixed text free of them and plain values, the
      substitutions put each value in exactly the positions its placeholder marks. */
  lemma {:induction false} SubstitutionsFill(fx: FixedText, ph: Placeholders, d: string, n: string,
                                             g: string, a: string)
    requires Apart(ph) && Untouched(fx, ph)
    requires PlainFor(ph, d) && PlainFor(ph, n) && PlainFor(ph, g) && PlainFor(ph, a)
    ensures Substitutions(ph, TemplateOf(fx, ph), d, n, g, a) == Shape(fx, d, n, g, a)
  {
    DomainStep(fx, ph, d);
    NetbiosStep(fx, ph, d, n);
    GmsaStep(fx, ph, d, n, g, ph.secret);
    SecretStep(fx, ph, d, n, g, a);
  }

  /** A value holding the account placeholder where the domain goes ends up as the
      account name in every domain position. */
  lemma {:induction false} SubstitutionsCapture(fx: FixedText, ph: Placeholders, n: string, g: string,
                                                a: string)
    requires Apart(ph) && Untouched(fx, ph)
    requires PlainFor(ph, n) && PlainFor(ph, g) && PlainFor(ph, a)
    ensures Substitutions(ph, TemplateOf(fx, ph), ph.gmsa, n, g, a) == Shape(fx, g, n, g, a)
  {
    DomainStep(fx, ph, ph.gmsa);
    NetbiosStep(fx, ph, ph.gmsa, n);
    GmsaStep(fx, ph, ph.gmsa, n, g, ph.secret);
    ReplaceWhole(ph.gmsa, g);
    SecretStep(fx, ph, g, n, g, a);
  }

  /** The placeholder strings of the template keep apart. */
  lemma PlaceholdersApart()
    ensures Apart(Ph)
  {
    NetbiosHasNoD();
    SecretHasNoD();
    NotContainsByChar(NetbiosPlaceholder, DomainPlaceholder, 0);
    NotContainsByChar(SecretPlaceholder, DomainPlaceholder, 0);
    NotContainsShorter(GmsaPlaceholder, DomainPlaceholder);
    NotContainsShorter(GmsaPlaceholder, NetbiosPlaceholder);
    SecretHasNoB();
    NotContainsByChar(SecretPlaceholder, NetbiosPlaceholder, 3);
    NotContainsShorter(GmsaPlaceholder, SecretPlaceholder);
    GmsaNotInSecret();
  }

  lemma NetbiosHasNoD() ensures 'D' !in NetbiosPlaceholder && DomainPlaceholder[0] == 'D' {}
  lemma SecretHasNoD() ensures 'D' !in SecretPlaceholder {}
  lemma SecretHasNoB() ensures 'B' !in SecretPlaceholder && NetbiosPlaceholder[3] == 'B' {}

  /** A pattern longer than the text does not occur in it. */
  lemma NotContainsShorter(s: string, p: string)
    requires |s| < |p|
    ensures !Contains(s, p)
  {
  }

  /** A pattern that is not a prefix of the text, and whose first character does not
      recur in the text, does not occur in it. */
  lemma NotContainsSoleStart(s: string, p: string)
    requires |s| > 0 && |p| > 0 && !(p <= s) && p[0] !in s[1..]
    ensures !Contains(s, p)
  {
    forall j | 0 < j < |s| ensures !(p <= s[j..]) {
      assert s[j..][0] == s[j] == s[1..][j - 1];
    }
  }

  /** "GMSA_NAME" does not occur in "GMSA_SECRET_ARN": the only 'G' is followed by "MSA_S". */
  lemma GmsaNotInSecret()
    ensures !Contains(SecretPlaceholder, GmsaPlaceholder)
  {
    SecretHasOneG();
    NotContainsSoleStart(SecretPlaceholder, GmsaPlaceholder);
  }

  lemma SecretHasOneG()
    ensures GmsaPlaceholder[0] == 'G' && 'G' !in SecretPlaceholder[1..]
    ensures !(GmsaPlaceholder <= SecretPlaceholder)
  {
    assert GmsaPlaceholder[5] != SecretPlaceholder[5];
  }

  /** Text with no capital 'O' and no underscore holds no placeholder: each placeholder
      has one of the two. */
  lemma MarkFree(s: string)
    requires 'O' !in s && '_' !in s
    ensures Plain(s)
  {
    PlaceholderMarks();
    NotContainsByChar(s, DomainPlaceholder, 1);
    NotContainsByChar(s, NetbiosPlaceholder, 7);
    NotContainsByChar(s, GmsaPlaceholder, 4);
    NotContainsByChar(s, SecretPlaceholder, 4);
  }

  lemma PlaceholderMarks()
    ensures DomainPlaceholder[1] == 'O' && NetbiosPlaceholder[7] == '_'
    ensures GmsaPlaceholder[4] == '_' && SecretPlaceholder[4] == '_'
  {
  }

  /** The template's fixed text holds no placeholder. */
  lemma FixedUntouched()
    ensures Untouched(Fixed, Ph)
  {
    PluginChars();
    SidChars();
    GuidChars();
    PluginGuidChars();
    MarkFree(Fixed.plugin);
    MarkFree(Fixed.sid);
    MarkFree(Fixed.guid);
    MarkFree(Fixed.version);
    MarkFree(Fixed.pluginGuid);
  }

  lemma PluginChars() ensures 'O' !in "ActiveDirectory" && '_' !in "ActiveDirectory" && 'O' !in "1" && '_' !in "1" {}
  lemma SidChars() ensures 'O' !in Sid && '_' !in Sid {}
  lemma GuidChars() ensures 'O' !in Guid && '_' !in Guid {}
  lemma PluginGuidChars() ensures 'O' !in PluginGuid && '_' !in PluginGuid {}

  /** With plain values, `create_credspec` puts each value in exactly the fields its
      placeholder marks, and leaves the fixed text as it is. */
  lemma CreateCredspecFields(directoryName: string, netbiosName: string, gmsaName: string, secretArn: string)
    requires Plain(directoryName) && Plain(netbiosName) && Plain(gmsaName) && Plain(secretArn)
    ensures CreateCredspec(directoryName, netbiosName, gmsaName, secretArn)
         == Intended(directoryName, netbiosName, gmsaName, secretArn)
  {
    PlaceholdersApart();
    FixedUntouched();
    SubstitutionsFill(Fixed, Ph, directoryName, netbiosName, gmsaName, secretArn);
  }

  /** The order of the substitutions shows through when a value holds a later
      placeholder: a directory name "GMSA_NAME" comes out as the account name in every
      domain position. */
  lemma SubstitutionOrderMatters(netbiosName: string, gmsaName: string, secretArn: string)
    requires Plain(netbiosName) && Plain(gmsaName) && Plain(secretArn)
    ensures CreateCredspec(GmsaPlaceholder, netbiosName, gmsaName, secretArn)
         == Intended(gmsaName, netbiosName, gmsaName, secretArn)
  {
    PlaceholdersApart();
    FixedUntouched();
    SubstitutionsCapture(Fixed, Ph, netbiosName, gmsaName, secretArn);
  }

  /** The batch script's substitutions: domain, NetBIOS name and secret ARN once, in
      that order, leaving the account placeholder for each account. */
  function SharedSubstitutions(ph: Placeholders, c: CredSpec, directoryName: string, netbiosName: string,
                               secretArn: string): CredSpec
    requires NonEmpty(ph)
  {
    var c1 := Substitute(c, ph.domain, directoryName);
    var c2 := Substitute(c1, ph.netbios, netbiosName);
    Substitute(c2, ph.secret, secretArn)
  }

  /** The batch script's shared template. */
  function SharedTemplate(directoryName: string, netbiosName: string, secretArn: string): CredSpec {
    SharedSubstitutions(Ph, Template, directoryName, netbiosName, secretArn)
  }

  /** Substituting the secret before the account name fills the same positions. */
  lemma {:induction false} SharedThenAccount(fx: FixedText, ph: Placeholders, d: string, n: string,
                                             a: string, g: string)
    requires Apart(ph) && Untouched(fx, ph)
    requires PlainFor(ph, d) && PlainFor(ph, n) && PlainFor(ph, a) && PlainFor(ph, g)
    ensures Substitute(SharedSubstitutions(ph, TemplateOf(fx, ph), d, n, a), ph.gmsa, g)
         == Shape(fx, d, n, g, a)
  {
    DomainStep(fx, ph, d);
    NetbiosStep(fx, ph, d, n);
    SecretStep(fx, ph, d, n, ph.gmsa, a);
    GmsaStep(fx, ph, d, n, g, a);
  }

  /** The name of the i-th gMSA account, `f"WebApp0{i}"`: a literal "0", not padding. */
  function AccountName(i: nat): string {
    "WebApp0" + NatToString(i)
  }

  /** The batch script's spec for account i: the shared template with the account name
      substituted on a copy. */
  function AccountCredspec(shared: CredSpec, i: nat): CredSpec {
    Substitute(shared, GmsaPlaceholder, AccountName(i))
  }

  /** Account names hold no placeholder. */
  lemma AccountNamePlain(i: nat)
    ensures Plain(AccountName(i))
  {
    var s := AccountName(i);
    assert forall k :: 7 <= k < |s| ==> s[k] == NatToString(i)[k - 7];
    assert forall k :: 0 <= k < |s| ==> s[k] != 'O' && s[k] != '_';
    MarkFree(s);
  }

  /** With plain configuration values, the batch script's order (domain, NetBIOS,
      secret, then the account per copy) yields the spec `create_credspec` builds. */
  lemma BatchOrderAgrees(directoryName: string, netbiosName: string, secretArn: string, i: nat)
    requires Plain(directoryName) && Plain(netbiosName) && Plain(secretArn)
    ensures AccountCredspec(SharedTemplate(directoryName, netbiosName, secretArn), i)
         == CreateCredspec(directoryName, netbiosName, AccountName(i), secretArn)
    ensures AccountCredspec(SharedTemplate(directoryName, netbiosName, secretArn), i)
         == Intended(directoryName, netbiosName, AccountName(i), secretArn)
  {
    AccountNamePlain(i);
    PlaceholdersApart();
    FixedUntouched();
    SharedThenAccount(Fixed, Ph, directoryName, netbiosName, secretArn, AccountName(i));
    SubstitutionsFill(Fixed, Ph, directoryName, netbiosName, AccountName(i), secretArn);
  }

  /** Where an uploaded spec lives: the bucket's ARN and the object key. */
  datatype S3Location = S3Location(bucketArn: string, key: string)

  const S3ArnPrefix := "arn:aws:s3:::"
  const KeySuffix := "_credspec.json"
  const ReferencePrefix := "credentialspecdomainless:"

  /** `upload_credspec_to_s3`: the key is the account name with "_credspec.json", the
      bucket ARN is "arn:aws:s3:::" and the bucket; a failed put (or bucket-location
      call) gives (None, None). */
  function UploadCredspec(bucket: string, gmsaName: string, succeeded: bool): (r: Option<S3Location>)
    ensures r.Some? <==> succeeded
    ensures r.Some? ==> S3ArnPrefix <= r.value.bucketArn && r.value.bucketArn[|S3ArnPrefix|..] == bucket
    ensures r.Some? ==> gmsaName <= r.value.key && r.value.key[|gmsaName|..] == KeySuffix
  {
    if succeeded then Some(S3Location(S3ArnPrefix + bucket, gmsaName + KeySuffix)) else None
  }

  /** The `credentialSpecs` entry that points a container at an uploaded spec. */
  function CredentialReference(loc: S3Location): (r: string)
    ensures ReferencePrefix <= r
    ensures r[|ReferencePrefix|..] == loc.bucketArn + "/" + loc.key
  {
    ReferencePrefix + loc.bucketArn + "/" + loc.key
  }

  /** The reference to account i's spec in `bucket`. */
  function AccountReference(bucket: string, i: nat): string {
    CredentialReference(S3Location(S3ArnPrefix + bucket, AccountName(i) + KeySuffix))
  }

  /** Distinct accounts get distinct object keys, hence distinct references. */
  lemma AccountReferencesDistinct(bucket: string, i: nat, j: nat)
    requires AccountReference(bucket, i) == AccountReference(bucket, j)
    ensures i == j
  {
    var pre := ReferencePrefix + S3ArnPrefix + bucket + "/";
    Regroup(ReferencePrefix, S3ArnPrefix, bucket, AccountName(i), KeySuffix);
    Regroup(ReferencePrefix, S3ArnPrefix, bucket, AccountName(j), KeySuffix);
    FrameInjective(pre, AccountName(i), AccountName(j), KeySuffix);
    PrefixedNatInjective("WebApp0", i, j);
  }

  /** Equal texts with the same start and end have the same middle. */
  lemma FrameInjective(pre: string, a: string, b: string, post: string)
    requires pre + a + post == pre + b + post
    ensures a == b
  {
    var s := pre + a + post;
    assert s[|pre|..|s| - |post|] == a;
    assert (pre + b + post)[|pre|..|s| - |post|] == b;
  }

  /** The reference as one fixed start, the account name and one fixed end. */
  lemma Regroup(p1: string, p2: string, b: string, k: string, s: string)
    ensures p1 + (p2 + b) + "/" + (k + s) == (p1 + p2 + b + "/") + k + s
  {
  }
}
