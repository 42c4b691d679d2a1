/** How object-storage keys are derived and checked. */
module ObjectKeys {
  import opened Characters
  import Store = ObjectStore
  import opened Substrings

  /** `scope` is the base64url HMAC-SHA-256 of a workspace id under the deployment's secret. */
  datatype Configuration = Configuration(
    storageBackendId: string,
    keyPrefix: string,
    scope: string -> string,
    multipartPartSizeBytes: nat
  )

  datatype StagingHandle = StagingHandle(workspaceId: string, storageBackendId: string, id: string)

  datatype BlobHandle = BlobHandle(workspaceId: string, storageBackendId: string, key: string)

  const SCOPE_CHARACTERS := 43

  /** The part size that deployment configuration admits, and a digest of fixed length without slashes. */
  ghost predicate ValidConfiguration(c: Configuration) {
    && c.multipartPartSizeBytes >= Store.MINIMUM_PART_BYTES
    && forall w :: |c.scope(w)| == SCOPE_CHARACTERS && '/' !in c.scope(w)
  }

  /** No two of these workspaces share a scope. */
  ghost predicate DistinctScopes(c: Configuration, workspaces: set<string>) {
    forall v, w | v in workspaces && w in workspaces && c.scope(v) == c.scope(w) :: v == w
  }

  /** `/^[A-Za-z0-9][A-Za-z0-9._:-]*$/` of at most 200 characters */
  predicate IsWorkspaceId(w: string) {
    && 0 < |w| <= 200
    && IsAlphanumeric(w[0])
    && forall i | 0 <= i < |w| :: IsAlphanumeric(w[i]) || w[i] in "._:-"
  }

  /** `/^[a-f0-9]{64}$/` */
  predicate IsSha256(s: string) {
    |s| == 64 && forall i | 0 <= i < |s| :: 'a' <= s[i] <= 'f' || '0' <= s[i] <= '9'
  }

  function Root(c: Configuration): string {
    "v1/" + c.keyPrefix + "/" + c.storageBackendId
  }

  function StoragePrefix(c: Configuration): string {
    Root(c) + "/"
  }

  function WorkspaceRoot(c: Configuration, w: string): string {
    StoragePrefix(c) + c.scope(w)
  }

  function ContentKey(c: Configuration, w: string, sha256: string): string {
    WorkspaceRoot(c, w) + "/content/" + sha256
  }

  function DerivativePrefix(c: Configuration, w: string): string {
    WorkspaceRoot(c, w) + "/derivative/"
  }

  function StagingKey(c: Configuration, w: string, id: string): string {
    WorkspaceRoot(c, w) + "/staging/" + id
  }

  /** `/^(?:[A-Za-z0-9._-]+\/)*[A-Za-z0-9._-]+$/` without `..` and `//` */
  predicate IsSafeKey(key: string) {
    && key != [] && key[0] != '/' && key[|key| - 1] != '/'
    && (forall i | 0 <= i < |key| :: IsAlphanumeric(key[i]) || key[i] in "._-/")
    && !Contains(key, "..")
    && !Contains(key, "//")
  }

  /** `assertHandle` does not throw. */
  predicate HandleAccepted(c: Configuration, handle: BlobHandle, w: string) {
    && handle.workspaceId == w
    && handle.storageBackendId == c.storageBackendId
    && IsWorkspaceId(w)
    && WorkspaceRoot(c, w) + "/" <= handle.key
    && IsSafeKey(handle.key)
  }

  /** `assertOutputHandle` does not throw. */
  predicate OutputHandleAccepted(c: Configuration, handle: BlobHandle, w: string) {
    HandleAccepted(c, handle, w) && DerivativePrefix(c, w) <= handle.key
  }

  // ----- the three kinds of keys are disjoint

  ghost predicate IsContentKey(c: Configuration, key: string) {
    exists w, sha256 :: key == ContentKey(c, w, sha256)
  }

  ghost predicate IsDerivativeKey(c: Configuration, key: string) {
    exists w :: DerivativePrefix(c, w) <= key
  }

  ghost predicate IsStagingKey(c: Configuration, key: string) {
    exists w, id :: key == StagingKey(c, w, id)
  }

  /** The first letter of the kind segment stands at the same place in every key. */
  function KindOffset(c: Configuration): nat {
    |StoragePrefix(c)| + SCOPE_CHARACTERS + 1
  }

  predicate HasKind(c: Configuration, key: string, letter: char) {
    |key| > KindOffset(c) && key[KindOffset(c)] == letter
  }

  lemma SegmentHasKind(c: Configuration, w: string, segment: string, rest: string)
    requires ValidConfiguration(c) && segment != []
    ensures HasKind(c, WorkspaceRoot(c, w) + "/" + segment + rest, segment[0])
  {
  }

  lemma ContentKeyKind(c: Configuration, w: string, sha256: string)
    requires ValidConfiguration(c)
    ensures HasKind(c, ContentKey(c, w, sha256), 'c')
  {
    SegmentHasKind(c, w, "content/", sha256);
    assert WorkspaceRoot(c, w) + "/" + "content/" + sha256 == ContentKey(c, w, sha256);
  }

  lemma StagingKeyKind(c: Configuration, w: string, id: string)
    requires ValidConfiguration(c)
    ensures HasKind(c, StagingKey(c, w, id), 's')
  {
    SegmentHasKind(c, w, "staging/", id);
    assert WorkspaceRoot(c, w) + "/" + "staging/" + id == StagingKey(c, w, id);
  }

  lemma DerivativeKeyKind(c: Configuration, w: string, key: string)
    requires ValidConfiguration(c) && DerivativePrefix(c, w) <= key
    ensures HasKind(c, key, 'd')
  {
    SegmentHasKind(c, w, "derivative/", []);
    assert WorkspaceRoot(c, w) + "/" + "derivative/" + [] == DerivativePrefix(c, w);
  }

  lemma KindsAreDisjoint(c: Configuration, key: string)
    requires ValidConfiguration(c)
    ensures IsContentKey(c, key) ==> HasKind(c, key, 'c')
    ensures IsDerivativeKey(c, key) ==> HasKind(c, key, 'd')
    ensures IsStagingKey(c, key) ==> HasKind(c, key, 's')
    ensures IsContentKey(c, key) ==> !IsDerivativeKey(c, key) && !IsStagingKey(c, key)
    ensures IsDerivativeKey(c, key) ==> !IsStagingKey(c, key)
  {
    hide ContentKey, DerivativePrefix, StagingKey;
    if w, sha256 :| key == ContentKey(c, w, sha256) {
      ContentKeyKind(c, w, sha256);
    }
    if w, id :| key == StagingKey(c, w, id) {
      StagingKeyKind(c, w, id);
    }
    if w :| DerivativePrefix(c, w) <= key {
      DerivativeKeyKind(c, w, key);
    }
  }

  /** A content key names its digest, whatever the workspace. */
  lemma ContentKeyNamesDigest(c: Configuration, v: string, w: string, a: string, b: string)
    requires ValidConfiguration(c)
    requires ContentKey(c, v, a) == ContentKey(c, w, b)
    ensures a == b
  {
    var k := |WorkspaceRoot(c, v)| + |"/content/"|;
    assert ContentKey(c, v, a)[k..] == a && ContentKey(c, w, b)[k..] == b;
  }

  /** A key accepted for a workspace lies under the root of no other workspace in use. */
  lemma KeyNamesWorkspace(c: Configuration, workspaces: set<string>, key: string, v: string, w: string)
    requires ValidConfiguration(c) && DistinctScopes(c, workspaces) && v in workspaces && w in workspaces
    requires WorkspaceRoot(c, v) <= key && WorkspaceRoot(c, w) <= key
    ensures v == w
  {
    var k, n := |StoragePrefix(c)|, |StoragePrefix(c)| + SCOPE_CHARACTERS;
    assert WorkspaceRoot(c, v) == key[..n] == WorkspaceRoot(c, w);
    assert c.scope(v) == WorkspaceRoot(c, v)[k..] && c.scope(w) == WorkspaceRoot(c, w)[k..];
  }
}
