/** The signed extension allowlist: versions, entries and the install gate. */
module ExtensionAllowlist {
  import opened Common

  datatype ExtensionId = ExtensionId(text: string)

  datatype Version = Version(major: nat, minor: nat, patch: nat) {
    /** The derived lexicographic order. */
    predicate AtMost(v: Version) {
      major < v.major || (major == v.major && (minor < v.minor || (minor == v.minor && patch <= v.patch)))
    }
  }

  datatype VersionConstraint = Exact(version: Version) | AtLeast(version: Version) {
    predicate Satisfies(v: Version) {
      if Exact? then v == version else version.AtMost(v)
    }
  }

  datatype AllowlistEntry = AllowlistEntry(
    extensionId: ExtensionId,
    constraint: VersionConstraint,
    xpiHash: ByteString,
    signingKey: ByteString)

  datatype AllowlistManifest = AllowlistManifest(
    formatVersion: nat,
    manifestVersion: nat,
    entries: seq<AllowlistEntry>)

  const FORMAT_VERSION := 1

  /** `entry_for`: the first entry with this id. */
  function EntryFor(entries: seq<AllowlistEntry>, id: ExtensionId): Option<AllowlistEntry> {
    if entries == [] then None
    else if entries[0].extensionId == id then Some(entries[0])
    else EntryFor(entries[1..], id)
  }

  predicate Admits(m: AllowlistManifest, id: ExtensionId, v: Version) {
    var e := EntryFor(m.entries, id);
    e.Some? && e.value.constraint.Satisfies(v)
  }

  // --------------------------------------------------------------- parse

  datatype ParseError = InvalidJson | UnsupportedFormatVersion | DuplicateExtensionId

  predicate DistinctIds(entries: seq<AllowlistEntry>) {
    forall i, j :: 0 <= i < j < |entries| ==> entries[i].extensionId != entries[j].extensionId
  }

  /** `json` stands for the JSON decoder. */
  function Parse(json: ByteString -> Option<AllowlistManifest>, bytes: ByteString): Result<AllowlistManifest, ParseError> {
    match json(bytes)
    case None => Failure(InvalidJson)
    case Some(m) =>
      if m.formatVersion != FORMAT_VERSION then Failure(UnsupportedFormatVersion)
      else if !DistinctIds(m.entries) then Failure(DuplicateExtensionId)
      else Success(m)
  }

  method ParseManifest(json: ByteString -> Option<AllowlistManifest>, bytes: ByteString)
    returns (r: Result<AllowlistManifest, ParseError>)
    ensures r == Parse(json, bytes)
  {
    var decoded := json(bytes);
    if decoded.None? {
      return Failure(InvalidJson);
    }
    var m := decoded.value;
    if m.formatVersion != FORMAT_VERSION {
      return Failure(UnsupportedFormatVersion);
    }
    var seen: set<ExtensionId> := {};
    for i := 0 to |m.entries|
      invariant seen == set k | 0 <= k < i :: m.entries[k].extensionId
      invariant DistinctIds(m.entries[..i])
    {
      var id := m.entries[i].extensionId;
      if id in seen {
        var k :| 0 <= k < i && m.entries[k].extensionId == id;
        return Failure(DuplicateExtensionId);
      }
      seen := seen + {id};
    }
    assert m.entries[..|m.entries|] == m.entries;
    r := Success(m);
  }

  /** With distinct ids the first entry for an id is the only one, wherever it stands. */
  lemma {:induction false} EntryForIsUnique(entries: seq<AllowlistEntry>, k: nat)
    requires DistinctIds(entries) && k < |entries|
    ensures EntryFor(entries, entries[k].extensionId) == Some(entries[k])
  {
    if k == 0 {
    } else {
      EntryForIsUnique(entries[1..], k - 1);
    }
  }

  // -------------------------------------------------------- install gate

  /** Hashing and signature checking, left uninterpreted. */
  datatype Crypto = Crypto(sha256: ByteString -> ByteString, verifies: (ByteString, ByteString, ByteString) -> bool)

  datatype InstallCandidate = InstallCandidate(id: ExtensionId, version: Version, xpi: ByteString, signature: ByteString)

  datatype InstallError = NotOnAllowlist | VersionConstraintUnsatisfied | XpiHashMismatch | SignatureMismatch

  function VerifyInstall(c: InstallCandidate, m: AllowlistManifest, crypto: Crypto): Result<AllowlistEntry, InstallError> {
    match EntryFor(m.entries, c.id)
    case None => Failure(NotOnAllowlist)
    case Some(e) =>
      if !e.constraint.Satisfies(c.version) then Failure(VersionConstraintUnsatisfied)
      else if crypto.sha256(c.xpi) != e.xpiHash then Failure(XpiHashMismatch)
      else if !crypto.verifies(e.signingKey, c.xpi, c.signature) then Failure(SignatureMismatch)
      else Success(e)
  }

  lemma {:induction false} EntryForFinds(entries: seq<AllowlistEntry>, id: ExtensionId) returns (k: nat)
    requires EntryFor(entries, id).Some?
    ensures k < |entries| && entries[k].extensionId == id && EntryFor(entries, id) == Some(entries[k])
  {
    if entries[0].extensionId == id {
      k := 0;
    } else {
      var j := EntryForFinds(entries[1..], id);
      k := j + 1;
    }
  }

  /** The four checks, on some entry of the manifest wherever it stands. */
  ghost predicate Passes(c: InstallCandidate, m: AllowlistManifest, crypto: Crypto, k: nat) {
    && k < |m.entries|
    && m.entries[k].extensionId == c.id
    && m.entries[k].constraint.Satisfies(c.version)
    && m.entries[k].xpiHash == crypto.sha256(c.xpi)
    && crypto.verifies(m.entries[k].signingKey, c.xpi, c.signature)
  }

  /**
   * The gate opens exactly for a candidate that passes all four checks against some entry of a parsed
   * manifest, and then answers with that entry; order and other entries do not matter.
   */
  lemma VerifiedIff(c: InstallCandidate, m: AllowlistManifest, crypto: Crypto, k: nat)
    requires DistinctIds(m.entries) && k < |m.entries|
    ensures VerifyInstall(c, m, crypto) == Success(m.entries[k]) <==> Passes(c, m, crypto, k)
    ensures VerifyInstall(c, m, crypto).Success? ==> exists j :: Passes(c, m, crypto, j)
    ensures VerifyInstall(c, m, crypto) == Failure(NotOnAllowlist) ==> m.entries[k].extensionId != c.id
  {
    EntryForIsUnique(m.entries, k);
    if EntryFor(m.entries, c.id).Some? {
      var j := EntryForFinds(m.entries, c.id);
      assert VerifyInstall(c, m, crypto).Success? ==> Passes(c, m, crypto, j);
    }
  }

  /** In a parsed manifest an extension is admitted exactly by an entry for it that its version satisfies. */
  lemma AdmitsIff(m: AllowlistManifest, id: ExtensionId, v: Version)
    requires DistinctIds(m.entries)
    ensures Admits(m, id, v)
       <==> exists k :: 0 <= k < |m.entries| && m.entries[k].extensionId == id && m.entries[k].constraint.Satisfies(v)
    ensures EntryFor(m.entries, id).None? <==> forall k :: 0 <= k < |m.entries| ==> m.entries[k].extensionId != id
  {
    if EntryFor(m.entries, id).Some? {
      var k := EntryForFinds(m.entries, id);
    }
    forall k | 0 <= k < |m.entries| && m.entries[k].extensionId == id
      ensures EntryFor(m.entries, id) == Some(m.entries[k])
    {
      EntryForIsUnique(m.entries, k);
    }
  }

  /** The four checks fail in the order of the source: the first one that fails names the error. */
  lemma RefusedFor(c: InstallCandidate, m: AllowlistManifest, crypto: Crypto, k: nat)
    requires DistinctIds(m.entries)
    ensures VerifyInstall(c, m, crypto) == Failure(NotOnAllowlist)
       <==> forall j :: 0 <= j < |m.entries| ==> m.entries[j].extensionId != c.id
    ensures k < |m.entries| && m.entries[k].extensionId == c.id ==>
      var e, r := m.entries[k], VerifyInstall(c, m, crypto);
      && (r == Failure(VersionConstraintUnsatisfied) <==> !e.constraint.Satisfies(c.version))
      && (r == Failure(XpiHashMismatch) <==> e.constraint.Satisfies(c.version) && crypto.sha256(c.xpi) != e.xpiHash)
      && (r == Failure(SignatureMismatch) <==>
            && e.constraint.Satisfies(c.version) && crypto.sha256(c.xpi) == e.xpiHash
            && !crypto.verifies(e.signingKey, c.xpi, c.signature))
  {
    AdmitsIff(m, c.id, c.version);
    if k < |m.entries| && m.entries[k].extensionId == c.id {
      EntryForIsUnique(m.entries, k);
    }
  }

  /** What parsing lets through, and what it answers otherwise; the format is looked at before the ids. */
  lemma ParsedIff(json: ByteString -> Option<AllowlistManifest>, bytes: ByteString, m: AllowlistManifest)
    ensures Parse(json, bytes) == Success(m)
       <==> && json(bytes) == Some(m) && m.formatVersion == 1
            && forall i, j :: 0 <= i < j < |m.entries| ==> m.entries[i].extensionId != m.entries[j].extensionId
    ensures Parse(json, bytes) == Failure(InvalidJson) <==> json(bytes).None?
    ensures json(bytes) == Some(m) ==>
      (Parse(json, bytes) == Failure(UnsupportedFormatVersion) <==> m.formatVersion != 1)
  {
  }

  // ------------------------------------------------------------- versions

  /** A component of a version is a 32-bit number. */
  predicate InWords(v: Version) {
    v.major < TWO_32 && v.minor < TWO_32 && v.patch < TWO_32
  }

  /** The version written as one number, most significant component first. */
  function Ordinal(v: Version): nat {
    (v.major * TWO_32 + v.minor) * TWO_32 + v.patch
  }

  /** The order of versions is that of these numbers. */
  lemma OrderIsNumeric(v: Version, w: Version)
    requires InWords(v) && InWords(w)
    ensures v.AtMost(w) <==> Ordinal(v) <= Ordinal(w)
    ensures v == w <==> Ordinal(v) == Ordinal(w)
  {
    DigitOrder(v.minor, v.patch, w.minor, w.patch);
    DigitOrder(v.major, v.minor * TWO_32 + v.patch, w.major, w.minor * TWO_32 + w.patch);
  }

  lemma DigitOrder(a: nat, b: nat, c: nat, d: nat)
    requires b < TWO_32 * TWO_32 && d < TWO_32 * TWO_32
    ensures a * (TWO_32 * TWO_32) + b <= c * (TWO_32 * TWO_32) + d <==> a < c || (a == c && b <= d)
    ensures b < TWO_32 && d < TWO_32 ==> (a * TWO_32 + b <= c * TWO_32 + d <==> a < c || (a == c && b <= d))
  {
  }

  /** `AtLeast` admits the version it names and everything newer, `Exact` nothing but the version it names. */
  lemma ConstraintMeans(named: Version, v: Version)
    requires InWords(named) && InWords(v)
    ensures AtLeast(named).Satisfies(v) <==> Ordinal(named) <= Ordinal(v)
    ensures Exact(named).Satisfies(v) <==> Ordinal(named) == Ordinal(v)
  {
    OrderIsNumeric(named, v);
  }
}
