/** Which objects the cleanup of abandoned staging objects can remove. */
module BlobCleanup {
  import opened BlobSafety
  import opened Characters
  import opened MemoryBlobStore
  import opened ObjectKeys
  import opened Store = ObjectStore
  import opened S3BlobStore
  import opened Substrings
  import opened Utf8

  const STAGING := "/staging/"

  /** A whole segment that is not `staging` separates what lies before it from what follows. */
  lemma SegmentSeparates(front: string, segment: string, rest: string)
    requires front != [] && front[|front| - 1] == '/' && '/' !in segment && segment != "staging"
    ensures LooksStaged(front + segment + "/" + rest) <==> LooksStaged(front) || LooksStaged("/" + rest)
  {
    var s, n, m := front + segment + "/" + rest, |front|, |segment|;
    assert s == [] + front + (segment + "/" + rest);
    assert s == (front + segment) + ("/" + rest) + [];
    if LooksStaged(s) {
      var i := ContainedAt(s, STAGING);
      if i + |STAGING| <= n {
        Shifted([], front, segment + "/" + rest, STAGING, i);
        ContainsIsAt(front, STAGING, i);
      } else if n + m <= i {
        Shifted(front + segment, "/" + rest, [], STAGING, i - n - m);
        ContainsIsAt("/" + rest, STAGING, i - n - m);
      } else {
        OccurrenceAcross(front, segment, rest, i);
      }
    }
    if LooksStaged(front) {
      Widened([], front, segment + "/" + rest, STAGING);
    }
    if LooksStaged("/" + rest) {
      Widened(front + segment, "/" + rest, [], STAGING);
    }
  }

  lemma Occurrence(s: string, i: nat)
    requires ContainsAt(s, STAGING, i)
    ensures forall k | i <= k < i + |STAGING| :: s[k] == STAGING[k - i]
  {
    forall k | i <= k < i + |STAGING| ensures s[k] == STAGING[k - i] {
      assert s[k] == s[i..i + |STAGING|][k - i];
    }
  }

  /** An occurrence that touches the segment is the segment. */
  lemma OccurrenceAcross(front: string, segment: string, rest: string, i: nat)
    requires front != [] && front[|front| - 1] == '/' && '/' !in segment
    requires i < |front| + |segment| && |front| < i + |STAGING|
    requires ContainsAt(front + segment + "/" + rest, STAGING, i)
    ensures segment == "staging"
  {
    var s, n, m := front + segment + "/" + rest, |front|, |segment|;
    Occurrence(s, i);
    assert s[n - 1] == '/' && s[n + m] == '/' && s[i] == '/' && s[i + 8] == '/';
    assert forall k | n <= k < n + m :: s[k] == segment[k - n] && s[k] != '/';
    assert forall k | i < k < i + 8 :: s[k] != '/';
    assert i == n - 1 && m == 7;
    forall k | 0 <= k < 7 ensures segment[k] == "staging"[k] {
      assert segment[k] == s[n + k] == STAGING[k + 1];
    }
  }

  lemma OneSlashIsNotStaged(rest: string)
    requires '/' !in rest
    ensures !LooksStaged("/" + rest)
  {
    var s := "/" + rest;
    forall i | 0 <= i <= |s| ensures !(STAGING <= s[i..]) {
      if i + 8 < |s| {
        assert s[i..][8] == s[i + 8] == rest[i + 7];
      }
    }
  }

  /** The key of a content object or of a derivative with this name, as `content` and `output` derive it. */
  function ProductionKey(c: Configuration, w: string, kind: string, name: string): string {
    WorkspaceRoot(c, w) + "/" + kind + "/" + name
  }

  /** A production key passes for a staging key exactly when the storage prefix or the name brings the segment in. */
  lemma ProductionLooksStaged(c: Configuration, w: string, kind: string, name: string)
    requires ValidConfiguration(c) && kind in {"content", "derivative"}
    ensures LooksStaged(ProductionKey(c, w, kind, name))
       <==> LooksStaged(StoragePrefix(c)) || LooksStaged("/" + name)
  {
    var prefix, scope := StoragePrefix(c), c.scope(w);
    SegmentSeparates(prefix, scope, kind + "/" + name);
    assert ProductionKey(c, w, kind, name) == prefix + scope + "/" + (kind + "/" + name);
    SegmentSeparates("/", kind, name);
    assert "/" + (kind + "/" + name) == "/" + kind + "/" + name;
    OneSlashIsNotStaged([]);
    assert "/" + [] == "/";
  }

  lemma StagingKeyLooksStaged(c: Configuration, w: string, id: string)
    ensures LooksStaged(StagingKey(c, w, id))
  {
    var n := |WorkspaceRoot(c, w)|;
    assert StagingKey(c, w, id)[n..n + |STAGING|] == STAGING;
    ContainsIsAt(StagingKey(c, w, id), STAGING, n);
  }

  /** The cleanup never removes the object at this key, whatever it lists and whatever requests are lost. */
  ghost predicate NeverCleaned(key: string) {
    forall s: S3State, keys, uploads | key in s.bucket.objects ::
      key in CleanupStep(s, keys, uploads).0.bucket.objects
  }

  lemma CleanedIffLooksStaged(key: string)
    ensures NeverCleaned(key) <==> !LooksStaged(key)
  {
    if LooksStaged(key) {
      var s := S3State(map[], Bucket(map[key := []], map[], 0, []));
      ListedStagingObjectGoes(s, key);
      assert key in s.bucket.objects && key !in CleanupStep(s, [key], []).0.bucket.objects;
    } else {
      forall s: S3State, keys, uploads | key in s.bucket.objects
        ensures key in CleanupStep(s, keys, uploads).0.bucket.objects
      {
        CleanupRemoves(s, keys, uploads);
      }
    }
  }

  /**
   * The cleanup spares content exactly when the storage prefix holds no `staging` segment; an output also needs a
   * name without that segment.
   */
  lemma CleanupSparesProduction(c: Configuration, w: string, name: string)
    requires ValidConfiguration(c)
    ensures IsSha256(name) ==> (NeverCleaned(ContentKey(c, w, name)) <==> !LooksStaged(StoragePrefix(c)))
    ensures NeverCleaned(DerivativePrefix(c, w) + name)
       <==> !LooksStaged(StoragePrefix(c)) && !LooksStaged("/" + name)
  {
    hide LooksStaged, NeverCleaned;
    ProductionLooksStaged(c, w, "content", name);
    ProductionLooksStaged(c, w, "derivative", name);
    assert ProductionKey(c, w, "content", name) == ContentKey(c, w, name);
    assert ProductionKey(c, w, "derivative", name) == DerivativePrefix(c, w) + name;
    CleanedIffLooksStaged(ContentKey(c, w, name));
    CleanedIffLooksStaged(DerivativePrefix(c, w) + name);
    if IsSha256(name) {
      assert '/' !in name;
      OneSlashIsNotStaged(name);
    }
  }

  /** A deployment with a short prefix, whose scope digest is the same letter throughout. */
  function SmallDeployment(storageBackendId: string): Configuration {
    Configuration(storageBackendId, "p", _ => seq(SCOPE_CHARACTERS, _ => 'a'), Store.MINIMUM_PART_BYTES)
  }

  const EMPTY_STORE := S3State(map[], Bucket(map[], map[], 0, []))

  /** A store accepts and writes an output whose key looks staged, and the next cleanup deletes it. */
  lemma WrittenThenCleaned(c: Configuration, blob: BlobHandle, w: string, text: seq<byte>)
    requires OutputHandleAccepted(c, blob, w) && LooksStaged(blob.key)
    ensures var (written, reply) := WriteStep(c, EMPTY_STORE, blob, w, text);
      && reply == Done && blob.key in written.bucket.objects
      && blob.key !in CleanupStep(written, [blob.key], []).0.bucket.objects
  {
    hide HandleAccepted, LooksStaged, CleanupStep;
    ListedStagingObjectGoes(WriteStep(c, EMPTY_STORE, blob, w, text).0, blob.key);
  }

  lemma SmallDeploymentIsValid(storageBackendId: string)
    ensures ValidConfiguration(SmallDeployment(storageBackendId))
    ensures StoragePrefix(SmallDeployment(storageBackendId)) == "v1/p/" + storageBackendId + "/"
  {
  }

  /** Under a prefix without that segment, an accepted output may still lie below `derivative/staging/`. */
  lemma AcceptedOutputIsCleaned()
    ensures var c := SmallDeployment("b");
      var key := DerivativePrefix(c, "w") + "staging/x";
      && ValidConfiguration(c) && !LooksStaged(StoragePrefix(c))
      && OutputHandleAccepted(c, BlobHandle("w", "b", key), "w")
      && !NeverCleaned(key)
  {
    var c := SmallDeployment("b");
    var key := DerivativePrefix(c, "w") + "staging/x";
    SmallDeploymentIsValid("b");
    SmallOutputIsAccepted(c, key);
    SmallPrefixIsClean();
    hide LooksStaged, NeverCleaned, ValidConfiguration, OutputHandleAccepted, SmallDeployment;
    CleanupSparesProduction(c, "w", "staging/x");
  }

  lemma SmallOutputIsAccepted(c: Configuration, key: string)
    requires c == SmallDeployment("b") && key == DerivativePrefix(c, "w") + "staging/x"
    ensures OutputHandleAccepted(c, BlobHandle("w", "b", key), "w")
  {
    SmallKeyIsSafe(c, key);
    hide IsSafeKey, StoragePrefix;
    assert IsAlphanumeric("w"[0]);
    assert DerivativePrefix(c, "w") == WorkspaceRoot(c, "w") + "/" + "derivative/";
  }

  lemma SmallPrefixIsClean()
    ensures !LooksStaged("v1/p/b/") && LooksStaged("/" + "staging/x")
  {
    assert "/" + "staging/x" == "/staging/x";
    SegmentSeparates("v1/p/", "b", []);
    SegmentSeparates("v1/", "p", []);
    assert "v1/p/b/" == "v1/p/" + "b" + "/" + [];
    assert "v1/" + "p" + "/" + [] == "v1/p/" && "/" + [] == "/";
    NothingStaged();
    ContainsIsAt("/staging/x", STAGING, 0);
  }

  lemma NothingStaged()
    ensures !LooksStaged("v1/") && !LooksStaged("/")
  {
  }

  /** A backend with the id `staging` exposes everything that is stored. */
  lemma StagingBackendIsCleaned(w: string, name: string)
    ensures var c := SmallDeployment("staging");
      && ValidConfiguration(c)
      && (IsSha256(name) ==> !NeverCleaned(ContentKey(c, w, name)))
      && !NeverCleaned(DerivativePrefix(c, w) + name)
  {
    var c := SmallDeployment("staging");
    SmallDeploymentIsValid("staging");
    assert StoragePrefix(c) == "v1/p/staging/" && "v1/p/staging/"[4..13] == STAGING;
    ContainsIsAt("v1/p/staging/", STAGING, 4);
    hide LooksStaged, NeverCleaned, ValidConfiguration, IsSha256, ContentKey, DerivativePrefix;
    CleanupSparesProduction(c, w, name);
  }

  /** One more plain segment keeps a key safe. */
  lemma SegmentIsSafe(key: string, segment: string)
    requires IsSafeKey(key) && segment != [] && forall i | 0 <= i < |segment| :: IsAlphanumeric(segment[i])
    ensures IsSafeKey(key + "/" + segment)
  {
    var longer := key + "/" + segment;
    forall i | 0 <= i < |longer| - 1 ensures longer[i] == '.' ==> longer[i + 1] != '.' {
      if i + 1 < |key| {
        assert key[i..][0] == key[i] && key[i..][1] == key[i + 1];
        assert !(".." <= key[i..]);
      }
    }
    forall i | 0 <= i < |longer| - 1 ensures longer[i] == '/' ==> longer[i + 1] != '/' {
      if i + 1 < |key| {
        assert key[i..][0] == key[i] && key[i..][1] == key[i + 1];
        assert !("//" <= key[i..]);
      }
    }
    forall i | 0 <= i <= |longer| ensures !(".." <= longer[i..]) && !("//" <= longer[i..]) {
      if i + 2 <= |longer| {
        assert longer[i..][0] == longer[i] && longer[i..][1] == longer[i + 1];
      }
    }
  }

  lemma SmallKeyIsSafe(c: Configuration, key: string)
    requires c == SmallDeployment("b") && key == DerivativePrefix(c, "w") + "staging/x"
    ensures IsSafeKey(key)
  {
    var scope := c.scope("w");
    assert forall i | 0 <= i < |scope| :: scope[i] == 'a';
    SmallKeyShape(c, scope);
    VersionIsSafe();
    hide IsSafeKey, DerivativePrefix;
    SegmentIsSafe("v1", "p");
    SegmentIsSafe("v1/p", "b");
    SegmentIsSafe("v1/p/b", scope);
    SegmentIsSafe("v1/p/b/" + scope, "derivative");
    SegmentIsSafe("v1/p/b/" + scope + "/derivative", "staging");
    SegmentIsSafe("v1/p/b/" + scope + "/derivative/staging", "x");
  }

  lemma SmallKeyShape(c: Configuration, scope: string)
    requires c == SmallDeployment("b") && scope == c.scope("w")
    ensures "v1" + "/" + "p" == "v1/p" && "v1/p" + "/" + "b" == "v1/p/b"
    ensures "v1/p/b" + "/" + scope == "v1/p/b/" + scope
    ensures "v1/p/b/" + scope + "/" + "derivative" == "v1/p/b/" + scope + "/derivative"
    ensures "v1/p/b/" + scope + "/derivative" + "/" + "staging" == "v1/p/b/" + scope + "/derivative/staging"
    ensures "v1/p/b/" + scope + "/derivative/staging" + "/" + "x" == DerivativePrefix(c, "w") + "staging/x"
  {
    assert Root(c) == "v1/p/b";
  }

  lemma VersionIsSafe()
    ensures IsSafeKey("v1")
  {
    forall i | 0 <= i <= 2 ensures !(".." <= "v1"[i..]) && !("//" <= "v1"[i..]) {
      assert i == 0 ==> "v1"[i..][0] == 'v';
    }
  }

  lemma CleanupRemoves(s: S3State, keys: seq<string>, uploads: seq<(string, nat)>)
    ensures Removed(s.bucket.objects, CleanupStep(s, keys, uploads).0.bucket.objects, keys)
  {
    var listed := List(List(s.bucket).0).0;
    DeleteListedRemoves(listed, keys);
    AbortListedRemoves(DeleteListed(listed, keys).0, uploads);
  }

  lemma ListedStagingObjectGoes(s: S3State, key: string)
    requires s.bucket.faults == [] && LooksStaged(key)
    ensures key !in CleanupStep(s, [key], []).0.bucket.objects
  {
    assert [key][1..] == [];
    assert DeleteListed(s.bucket, [key]) == DeleteListed(DeleteObject(s.bucket, key).0, []);
  }

  /** Without faults every listed staging object is gone after the cleanup, and nothing that was not listed. */
  lemma {:induction false} CleanupIsComplete(s: S3State, keys: seq<string>, uploads: seq<(string, nat)>)
    requires s.bucket.faults == []
    requires forall i | 0 <= i < |uploads| && LooksStaged(uploads[i].0) ::
      uploads[i].1 in s.bucket.uploads && s.bucket.uploads[uploads[i].1].key == uploads[i].0
    requires forall i, j | 0 <= i < j < |uploads| :: uploads[i].1 != uploads[j].1
    ensures var (after, reply) := CleanupStep(s, keys, uploads);
      && reply == Cleaned(CountStaged(keys) + CountStaged(KeysOf(uploads)))
      && (forall k :: k in after.bucket.objects <==> k in s.bucket.objects && !(k in keys && LooksStaged(k)))
      && (forall i | 0 <= i < |uploads| && LooksStaged(uploads[i].0) :: uploads[i].1 !in after.bucket.uploads)
  {
    DeleteListedIsComplete(s.bucket, keys);
    AbortListedIsComplete(DeleteListed(s.bucket, keys).0, uploads);
    AbortListedRemoves(DeleteListed(s.bucket, keys).0, uploads);
  }

  lemma {:induction false} DeleteListedIsComplete(b: Bucket, keys: seq<string>)
    requires b.faults == []
    ensures var (after, done) := DeleteListed(b, keys);
      && done.Some? && after.faults == [] && after.uploads == b.uploads
      && (forall k :: k in after.objects <==> k in b.objects && !(k in keys && LooksStaged(k)))
    decreases |keys|
  {
    if keys != [] {
      DeleteListedIsComplete(if LooksStaged(keys[0]) then DeleteObject(b, keys[0]).0 else b, keys[1..]);
      assert keys == [keys[0]] + keys[1..];
    }
  }

  lemma {:induction false} AbortListedIsComplete(b: Bucket, uploads: seq<(string, nat)>)
    requires b.faults == []
    requires forall i | 0 <= i < |uploads| && LooksStaged(uploads[i].0) ::
      uploads[i].1 in b.uploads && b.uploads[uploads[i].1].key == uploads[i].0
    requires forall i, j | 0 <= i < j < |uploads| :: uploads[i].1 != uploads[j].1
    ensures var (after, done) := AbortListed(b, uploads);
      && done.Some?
      && (forall i | 0 <= i < |uploads| && LooksStaged(uploads[i].0) :: uploads[i].1 !in after.uploads)
    decreases |uploads|
  {
    if uploads != [] {
      var next := if LooksStaged(uploads[0].0) then AbortMultipart(b, uploads[0].0, uploads[0].1).0 else b;
      AbortListedIsComplete(next, uploads[1..]);
      AbortListedRemoves(next, uploads[1..]);
      var after := AbortListed(b, uploads).0;
      forall i | 0 <= i < |uploads| && LooksStaged(uploads[i].0) ensures uploads[i].1 !in after.uploads {
        if i > 0 {
          assert uploads[i] == uploads[1..][i - 1];
        }
      }
    }
  }
}
