/** The presenter: a read-only view over one gem specification record that
    fills in defaults and derives display strings from it. */
module Presenters {
  import opened Wrappers
  import opened Versions
  import opened Joins
  import opened RubyCore

  /** The attributes of a Gem::Specification record the presenter reads
      itself (the delegated ones pass through and are not modelled). `author`
      is the record's singular reader, which answers the first author or nil,
      never a list; `email` and `certChain` may hold a list. */
  datatype Specification = Specification(
    name: Option<string>,
    version: Option<Version>,
    author: Option<string>,
    email: Plural,
    summary: Option<string>,
    homepage: Option<string>,
    metadata: map<string, string>,
    certChain: Plural,
    signingKey: Option<string>)

  /** A value handed to `with_default`: nothing, something that is not a
      specification record, or a specification record. */
  datatype Given = Nothing | Foreign | Record(spec: Specification)

  datatype Pathname = Pathname(path: string)

  datatype Presenter = Presenter(record: Specification)

  /** The record `Gem::Specification.new` builds: no name, no version, no
      authors, emails or metadata. */
  const DefaultSpecification := Specification(None, None, None, Nil, None, None, map[], Many([]), None)

  /** `Gem::DEFAULT_HOST`. */
  const DefaultHost := "https://rubygems.org"

  /** `with_default`: wraps the given record when it is one, and a fresh
      default record when nothing or a foreign value is given. */
  function WithDefault(given: Given): (p: Presenter)
    ensures given.Record? ==> p.record == given.spec
    ensures !given.Record? ==> p.record.name.None? && p.record.version.None? && p.record.metadata == map[]
  {
    if given.Record? then Presenter(given.spec) else Presenter(DefaultSpecification)
  }

  /** The metadata-backed readers, each a metadata key with a fixed default. */
  datatype MetadataField =
    | AllowedPushHost
    | AllowedPushKey
    | DocumentationUrl
    | FundingUrl
    | IssuesUrl
    | Label
    | MfaRequired
    | SourceUrl
    | VersionsUrl
  {
    function Key(): string {
      match this
      case AllowedPushHost => "allowed_push_host"
      case AllowedPushKey => "allowed_push_key"
      case DocumentationUrl => "documentation_uri"
      case FundingUrl => "funding_uri"
      case IssuesUrl => "bug_tracker_uri"
      case Label => "label"
      case MfaRequired => "rubygems_mfa_required"
      case SourceUrl => "source_code_uri"
      case VersionsUrl => "changelog_uri"
    }

    function Default(): string {
      match this
      case AllowedPushHost => DefaultHost
      case AllowedPushKey => "rubygems_api_key"
      case MfaRequired => "false"
      case _ => ""
    }
  }

  /** `metadata.fetch key, default` for one of the readers. */
  function Read(p: Presenter, field: MetadataField): (r: string)
    ensures field.Key() in p.record.metadata ==> r == p.record.metadata[field.Key()]
    ensures field.Key() !in p.record.metadata ==> r == field.Default()
  {
    if field.Key() in p.record.metadata then p.record.metadata[field.Key()] else field.Default()
  }

  /** The readers use pairwise distinct keys, so storing one key changes that
      reader only. */
  lemma ReadAfterStore(p: Presenter, f: MetadataField, value: string, g: MetadataField)
    ensures var q := Presenter(p.record.(metadata := p.record.metadata[f.Key() := value]));
      Read(q, g) == if f == g then value else Read(p, g)
  {
  }

  /** With empty metadata every reader answers its documented default. */
  lemma EmptyMetadataDefaults(p: Presenter)
    requires p.record.metadata == map[]
    ensures Read(p, AllowedPushHost) == "https://rubygems.org"
    ensures Read(p, AllowedPushKey) == "rubygems_api_key"
    ensures Read(p, DocumentationUrl) == "" && Read(p, FundingUrl) == "" && Read(p, IssuesUrl) == ""
    ensures Read(p, Label) == "" && Read(p, SourceUrl) == "" && Read(p, VersionsUrl) == ""
    ensures !RubygemsMfa(p)
  {
  }

  /** `to_bool` on the MFA flag: only the text "true" is modelled as true. */
  function RubygemsMfa(p: Presenter): (on: bool)
    ensures on <==> MfaRequired.Key() in p.record.metadata && p.record.metadata[MfaRequired.Key()] == "true"
  {
    Read(p, MfaRequired) == "true"
  }

  /** `Array record.author`: nil is no authors and a name is a one-name list,
      so there is never more than one author. */
  function Authors(p: Presenter): (authors: seq<string>)
    ensures p.record.author.None? ==> authors == []
    ensures p.record.author.Some? ==> authors == [p.record.author.value]
    ensures |authors| <= 1
  {
    match p.record.author
    case None => ArrayOf(Nil)
    case Some(a) => ArrayOf(One(a))
  }

  /** `Array record.email`: nil is no emails, one address is a one-address
      list, a list is kept as is. */
  function Emails(p: Presenter): (emails: seq<string>)
    ensures p.record.email.Nil? ==> emails == []
    ensures p.record.email.One? ==> emails == [p.record.email.item]
    ensures p.record.email.Many? ==> emails == p.record.email.items
  {
    ArrayOf(p.record.email)
  }

  /** Each certificate path wrapped as a Pathname, in the record's order. */
  function CertificateChain(p: Presenter): (chain: seq<Pathname>)
    ensures |chain| == |ArrayOf(p.record.certChain)|
    ensures forall i :: 0 <= i < |chain| ==> chain[i].path == ArrayOf(p.record.certChain)[i]
  {
    var paths := ArrayOf(p.record.certChain);
    seq(|paths|, i requires 0 <= i < |paths| => Pathname(paths[i]))
  }

  /** `String record.homepage`: nil becomes "". */
  function HomepageUrl(p: Presenter): (url: string)
    ensures p.record.homepage.None? ==> url == ""
    ensures p.record.homepage.Some? ==> url == p.record.homepage.value
  {
    p.record.homepage.GetOr("")
  }

  /** `Pathname record.signing_key.to_s`: nil becomes the empty path. */
  function SigningKey(p: Presenter): (key: Pathname)
    ensures p.record.signingKey.None? ==> key.path == ""
    ensures p.record.signingKey.Some? ==> key.path == p.record.signingKey.value
  {
    Pathname(p.record.signingKey.GetOr(""))
  }

  /** `Version record.version.to_s`: the record's version cast back from its
      text, with a missing version (whose text is "") cast to 0.0.0. */
  function VersionOf(p: Presenter): (v: Version)
    ensures p.record.version.Some? ==> v == p.record.version.value
    ensures p.record.version.None? ==> v == Version(0, 0, 0)
  {
    // The cast never fails on this text (see the ensures), so the fallback is never taken.
    match p.record.version
    case None => Cast("").GetOr(Version(0, 0, 0))
    case Some(recorded) =>
      CastToS(recorded);
      Cast(ToS(recorded)).GetOr(Version(0, 0, 0))
  }

  /** The version as the joins render it. */
  function VersionText(p: Presenter): string {
    ToS(VersionOf(p))
  }

  function LabeledSummary(p: Presenter, delimiter: string := ": "): (r: string)
    ensures Read(p, Label) == "" ==> r == (if Blank(p.record.summary) then "" else p.record.summary.value)
    ensures Read(p, Label) != "" && Blank(p.record.summary) ==> r == Read(p, Label)
    ensures Read(p, Label) != "" && !Blank(p.record.summary) ==> r == Read(p, Label) + delimiter + p.record.summary.value
  {
    CompressJoinPair(Some(Read(p, Label)), p.record.summary, delimiter);
    CompressJoin([Some(Read(p, Label)), p.record.summary], delimiter)
  }

  function LabeledVersion(p: Presenter): (r: string)
    ensures Read(p, Label) == "" ==> r == VersionText(p)
    ensures Read(p, Label) != "" ==> r == Read(p, Label) + " " + VersionText(p)
  {
    CompressJoinPair(Some(Read(p, Label)), Some(VersionText(p)), " ");
    CompressJoin([Some(Read(p, Label)), Some(VersionText(p))], " ")
  }

  function NamedVersion(p: Presenter): (r: string)
    ensures Blank(p.record.name) ==> r == VersionText(p)
    ensures !Blank(p.record.name) ==> r == p.record.name.value + " " + VersionText(p)
  {
    CompressJoinPair(p.record.name, Some(VersionText(p)), " ");
    CompressJoin([p.record.name, Some(VersionText(p))], " ")
  }

  function PackageName(p: Presenter): (r: string)
    ensures Blank(p.record.name) ==> r == VersionText(p) + ".gem"
    ensures !Blank(p.record.name) ==> r == p.record.name.value + "-" + VersionText(p) + ".gem"
  {
    CompressJoinPair(p.record.name, Some(VersionText(p)), "-");
    CompressJoin([p.record.name, Some(VersionText(p))], "-") + ".gem"
  }

  /** `Pathname("tmp").join package_name`: an absolute name replaces the
      directory, any other name is placed under it. */
  function PackagePath(p: Presenter): (r: Pathname)
    ensures PackageName(p)[0] != '/' ==> r.path == "tmp/" + PackageName(p)
    ensures PackageName(p)[0] == '/' ==> r.path == PackageName(p)
  {
    var name := PackageName(p);
    if name[0] == '/' then Pathname(name) else Pathname("tmp/" + name)
  }

  function Banner(p: Presenter, delimiter: string := ": "): (r: string)
    ensures Blank(p.record.summary) ==> r == LabeledVersion(p)
    ensures !Blank(p.record.summary) ==> r == LabeledVersion(p) + delimiter + p.record.summary.value
  {
    CompressJoinPair(Some(LabeledVersion(p)), p.record.summary, delimiter);
    CompressJoin([Some(LabeledVersion(p)), p.record.summary], delimiter)
  }

  predicate EndsWith(s: string, suffix: string) {
    |suffix| <= |s| && s[|s| - |suffix|..] == suffix
  }

  lemma EndsWithAppend(prefix: string, suffix: string)
    ensures EndsWith(prefix + suffix, suffix)
  {
    assert (prefix + suffix)[|prefix|..] == suffix;
  }

  /** The version text is never empty, so every version-bearing display
      string is non-empty and ends with the version text. */
  lemma VersionBearingNames(p: Presenter)
    ensures VersionText(p) != ""
    ensures EndsWith(NamedVersion(p), VersionText(p))
    ensures EndsWith(LabeledVersion(p), VersionText(p))
    ensures EndsWith(PackageName(p), VersionText(p) + ".gem")
  {
    var v := VersionText(p);
    assert |ToS(VersionOf(p))| >= 5;
    if !Blank(p.record.name) {
      EndsWithAppend(p.record.name.value + " ", v);
      EndsWithAppend(p.record.name.value + "-", v + ".gem");
      assert p.record.name.value + "-" + v + ".gem" == (p.record.name.value + "-") + (v + ".gem");
    } else {
      EndsWithAppend("", v);
      EndsWithAppend("", v + ".gem");
    }
    if Read(p, Label) != "" {
      EndsWithAppend(Read(p, Label) + " ", v);
    } else {
      EndsWithAppend("", v);
    }
  }

  lemma ZeroVersionText()
    ensures ToS(Version(0, 0, 0)) == "0.0.0"
  {
    assert Decimal.Render(0) == "0";
  }

  /** `with_default` given nothing or a foreign value answers the default
      record, whose named version is the bare default version. */
  lemma WithDefaultNamedVersion(given: Given)
    ensures !given.Record? ==> NamedVersion(WithDefault(given)) == "0.0.0"
    ensures given.Record? ==> NamedVersion(WithDefault(given)) == NamedVersion(Presenter(given.spec))
  {
    ZeroVersionText();
  }

  /** The record spek's presenter spec builds: name "test", version 0.0.0,
      author "Jill Smith", summary "A test summary.", no metadata. */
  const TestRecord := Specification(
    Some("test"), Some(Version(0, 0, 0)), Some("Jill Smith"), Nil,
    Some("A test summary."), None, map[], Many([]), None)

  /** The tests' record answers the version text "0.0.0" and the empty label. */
  lemma TestRecordBasics(p: Presenter)
    requires p.record == TestRecord
    ensures VersionText(p) == "0.0.0" && Read(p, Label) == ""
  {
    ZeroVersionText();
  }

  /** A presenter named "test" at version 0.0.0 answers "test 0.0.0". */
  lemma TestNamedVersion(p: Presenter)
    requires p.record.name == Some("test") && VersionText(p) == "0.0.0"
    ensures NamedVersion(p) == "test 0.0.0"
  {
  }

  /** ... and the package "test-0.0.0.gem" under "tmp/". */
  lemma TestPackage(p: Presenter)
    requires p.record.name == Some("test") && VersionText(p) == "0.0.0"
    ensures PackageName(p) == "test-0.0.0.gem"
    ensures PackagePath(p).path == "tmp/test-0.0.0.gem"
  {
  }

  /** An unlabelled presenter at version 0.0.0 with the tests' summary: the
      label defaults to "", so neither view carries an "Undefined" prefix. */
  lemma UnlabelledBanner(p: Presenter)
    requires Read(p, Label) == "" && VersionText(p) == "0.0.0"
    requires p.record.summary == Some("A test summary.")
    ensures LabeledVersion(p) == "0.0.0"
    ensures Banner(p) == "0.0.0: A test summary."
  {
  }

  /** A presenter labelled "Test" joins its summary with the default
      delimiter ": ". */
  lemma LabeledTestSummary(p: Presenter)
    requires Read(p, Label) == "Test"
    requires p.record.summary == Some("A test summary.")
    ensures LabeledSummary(p) == "Test: A test summary."
  {
  }
}
