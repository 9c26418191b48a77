/**
  The Google Cloud Storage helpers (web/src/lib/gcs.ts): building and caching
  the client from environment variables, the upload and delete guards, the
  signed-URL expiry arithmetic, and reading an object path back out of a
  public object URL.

  The SDK is opaque. The bucket contents are a map from `(bucket, object)` to
  bytes, the clock and the client constructor's failure are parameters, and
  the SDK's own upload stream, retries and timeouts are not modelled.
 */
module Gcs {
  import opened Results
  import opened Text
  import opened Bytes

  // ---------------------------------------------------------------------------
  // The client
  // ---------------------------------------------------------------------------

  /** The four environment variables the client reads; `None` when unset. */
  datatype Env = Env(
    projectId: Option<string>,
    keyFilename: Option<string>,
    clientEmail: Option<string>,
    privateKey: Option<string>)

  /** How the client authenticates. `Ambient` leaves it to the SDK's own lookup. */
  datatype Credentials =
    | KeyFile(path: string)
    | ServiceAccount(email: string, key: string)
    | Ambient

  datatype Client = Client(projectId: string, credentials: Credentials)

  const MissingProject: string :=
    "GOOGLE_CLOUD_PROJECT_ID environment variable is required. Set this to your Google Cloud project ID."

  /** JavaScript truthiness of an optional string: set and non-empty. */
  predicate Truthy(v: Option<string>) {
    v.Some? && v.value != ""
  }

  /**
    `privateKey.replace(/\\n/g, '\n')`: every backslash followed by `n`,
    scanning left to right without overlap, becomes one newline.
   */
  function UnescapeKey(s: string): (r: string)
    ensures |r| <= |s|
  {
    if |s| >= 2 && s[0] == '\\' && s[1] == 'n' then "\n" + UnescapeKey(s[2..])
    else if s == [] then []
    else [s[0]] + UnescapeKey(s[1..])
  }

  /** The inverse direction: each newline written as backslash-`n`. */
  function EscapeKey(s: string): (r: string) {
    if s == [] then []
    else (if s[0] == '\n' then "\\n" else [s[0]]) + EscapeKey(s[1..])
  }

  /** `s` has a backslash immediately followed by `n`. */
  predicate HasEscape(s: string) {
    exists i :: 0 <= i < |s| - 1 && s[i] == '\\' && s[i + 1] == 'n'
  }

  function CountNewlines(s: string): nat {
    if s == [] then 0 else (if s[0] == '\n' then 1 else 0) + CountNewlines(s[1..])
  }

  /**
    Unescaping leaves no backslash-`n` pair behind, and each replacement
    shortens the key by one character and adds one newline.
   */
  lemma {:induction false} UnescapeKeyComplete(s: string)
    ensures !HasEscape(UnescapeKey(s))
    ensures |UnescapeKey(s)| + (CountNewlines(UnescapeKey(s)) - CountNewlines(s)) == |s|
    ensures CountNewlines(UnescapeKey(s)) >= CountNewlines(s)
    ensures s != [] && s[0] == '\\' ==> UnescapeKey(s) != [] && (UnescapeKey(s)[0] == '\\' || UnescapeKey(s)[0] == '\n')
    ensures s != [] && s[0] != '\\' ==> UnescapeKey(s) != [] && UnescapeKey(s)[0] == s[0]
    decreases |s|
  {
    if |s| >= 2 && s[0] == '\\' && s[1] == 'n' {
      UnescapeKeyComplete(s[2..]);
      var r := UnescapeKey(s);
      var rest := UnescapeKey(s[2..]);
      assert r == "\n" + rest;
      assert r[1..] == rest;
      assert CountNewlines(r) == 1 + CountNewlines(rest);
      assert CountNewlines(s) == CountNewlines(s[1..]);
      assert s[1..][1..] == s[2..];
      assert CountNewlines(s[1..]) == CountNewlines(s[2..]);
      NoEscapeCons('\n', rest);
    } else if s != [] {
      UnescapeKeyComplete(s[1..]);
      var r := UnescapeKey(s);
      var rest := UnescapeKey(s[1..]);
      assert r == [s[0]] + rest;
      assert r[1..] == rest;
      if s[0] == '\\' && rest != [] {
        // `s[1]` is not `n`, and what follows the kept backslash starts with `s[1]` or a newline.
        assert |s| >= 2 && s[1] != 'n';
        assert rest[0] != 'n';
      }
      NoEscapeCons(s[0], rest);
    }
  }

  /** Putting `c` in front of an escape-free string creates an escape only with a leading `n`. */
  lemma NoEscapeCons(c: char, s: string)
    requires !HasEscape(s)
    requires c == '\\' && s != [] ==> s[0] != 'n'
    ensures !HasEscape([c] + s)
  {
    var t := [c] + s;
    forall i | 0 <= i < |t| - 1
      ensures !(t[i] == '\\' && t[i + 1] == 'n')
    {
      if i > 0 {
        assert t[i] == s[i - 1] && t[i + 1] == s[i];
      }
    }
  }

  /** Escaping then unescaping gives back any key that had no backslash-`n` pair. */
  lemma {:induction false} UnescapeEscape(s: string)
    requires !HasEscape(s)
    ensures UnescapeKey(EscapeKey(s)) == s
    decreases |s|
  {
    if s != [] {
      assert !HasEscape(s[1..]);
      UnescapeEscape(s[1..]);
      var e := EscapeKey(s[1..]);
      if s[0] == '\n' {
        assert EscapeKey(s) == "\\n" + e;
        assert ("\\n" + e)[2..] == e;
      } else {
        assert EscapeKey(s) == [s[0]] + e;
        assert ([s[0]] + e)[1..] == e;
        if s[0] == '\\' && e != [] {
          assert |s| >= 2;
          assert s[1] != 'n';
          assert e[0] == s[1] || e[0] == '\\';
        }
      }
    }
  }

  /**
    `getGCSClient`: the cached client if there is one; otherwise a project id
    is required, a key file wins over an email/key pair, and the result is
    cached. A failing constructor is wrapped in a message of its own.
   */
  function GetClient(cache: Option<Client>, env: Env, constructError: Option<string>): (r: (Result<Client, string>, Option<Client>))
    ensures cache.Some? ==> r == (Success(cache.value), cache)
    ensures cache.None? && !Truthy(env.projectId) ==> r == (Failure(MissingProject), None)
    ensures r.0.Success? ==> r.1 == Some(r.0.value)
    ensures cache.None? && r.0.Success? ==> Truthy(env.projectId) && r.0.value.projectId == env.projectId.value
    ensures r.0.Failure? ==> r.1 == cache
    ensures cache.None? && r.0.Success? && Truthy(env.keyFilename) ==> r.0.value.credentials == KeyFile(env.keyFilename.value)
    ensures cache.None? && r.0.Success? && !Truthy(env.keyFilename) && Truthy(env.clientEmail) && Truthy(env.privateKey) ==>
      r.0.value.credentials == ServiceAccount(env.clientEmail.value, UnescapeKey(env.privateKey.value))
  {
    if cache.Some? then (Success(cache.value), cache)
    else if !Truthy(env.projectId) then (Failure(MissingProject), None)
    else
      var credentials :=
        if Truthy(env.keyFilename) then KeyFile(env.keyFilename.value)
        else if Truthy(env.clientEmail) && Truthy(env.privateKey) then
          ServiceAccount(env.clientEmail.value, UnescapeKey(env.privateKey.value))
        else Ambient;
      match constructError
      case Some(message) =>
        (Failure("Failed to initialize Google Cloud Storage client: " + message
          + ". Check your credentials and project configuration."), None)
      case None =>
        var client := Client(env.projectId.value, credentials);
        (Success(client), Some(client))
  }

  /** Once built, the same client is returned for every later call, whatever the environment says by then. */
  lemma ClientIsCached(env: Env, constructError: Option<string>, laterEnv: Env, laterError: Option<string>)
    ensures var first := GetClient(None, env, constructError);
      first.0.Success? ==> GetClient(first.1, laterEnv, laterError) == (first.0, first.1)
  {
  }

  // ---------------------------------------------------------------------------
  // Upload and delete
  // ---------------------------------------------------------------------------

  /** The objects of every bucket, by bucket and object name. */
  type Store = map<(string, string), seq<uint8>>

  /** An object as written: its bytes and what the write stream was told about it. */
  datatype Written = Written(
    data: seq<uint8>,
    contentType: string,
    metadata: map<string, string>,
    resumable: bool)

  /** `UploadOptions`; the buffer is `None` when it is missing. */
  datatype UploadOptions = UploadOptions(
    bucketName: string,
    fileName: string,
    buffer: Option<seq<uint8>>,
    contentType: string,
    metadata: map<string, string>)

  const EmptyBuffer: string := "Upload buffer is empty or invalid"
  const NamesRequired: string := "Bucket name and file name are required"
  const NamesRequiredForDeletion: string := "Bucket name and file name are required for deletion"
  /** Uploads larger than this many bytes use a resumable session. */
  const ResumableThreshold: nat := 5 * 1024 * 1024

  /**
    What `uploadToGCS` hands to the write stream: the caller's metadata with
    `uploadedAt` and `originalSize` set on top, and a resumable session for
    large buffers.
   */
  function WriteRequest(o: UploadOptions, nowIso: string): (w: Written)
    requires o.buffer.Some?
    ensures w.data == o.buffer.value && w.contentType == o.contentType
    ensures w.resumable <==> |o.buffer.value| > 5242880
    ensures "uploadedAt" in w.metadata && w.metadata["uploadedAt"] == nowIso
    ensures "originalSize" in w.metadata && AllDigits(w.metadata["originalSize"])
      && ParseNat(w.metadata["originalSize"]) == |o.buffer.value|
    ensures forall k :: k in o.metadata && k != "uploadedAt" && k != "originalSize" ==>
      k in w.metadata && w.metadata[k] == o.metadata[k]
    ensures w.metadata.Keys == o.metadata.Keys + {"uploadedAt", "originalSize"}
  {
    var size := |o.buffer.value|;
    ParseNatToString(size);
    Written(o.buffer.value, o.contentType,
      o.metadata + map["uploadedAt" := nowIso, "originalSize" := NatToString(size)],
      size > ResumableThreshold)
  }

  /**
    `uploadToGCS`: the buffer is checked first, then the names, and only then
    is the client asked for; a client failure is reported with the file name.
    The write itself is modelled as completing.
   */
  function Upload(store: Store, cache: Option<Client>, env: Env, constructError: Option<string>,
                  o: UploadOptions, nowIso: string): (r: (Result<Store, string>, Option<Client>))
    ensures o.buffer.None? || o.buffer.value == [] ==> r == (Failure(EmptyBuffer), cache)
    ensures o.buffer.Some? && o.buffer.value != [] && (o.bucketName == "" || o.fileName == "") ==>
      r == (Failure(NamesRequired), cache)
    ensures r.0.Success? ==> r.0.value == store[(o.bucketName, o.fileName) := o.buffer.value]
    ensures r.0.Success? <==>
      o.buffer.Some? && o.buffer.value != [] && o.bucketName != "" && o.fileName != ""
      && GetClient(cache, env, constructError).0.Success?
  {
    if o.buffer.None? || o.buffer.value == [] then (Failure(EmptyBuffer), cache)
    else if o.bucketName == "" || o.fileName == "" then (Failure(NamesRequired), cache)
    else
      var (client, cache') := GetClient(cache, env, constructError);
      match client
      case Failure(message) => (Failure("Failed to setup upload for " + o.fileName + ": " + message), cache')
      case Success(_) =>
        var w := WriteRequest(o, nowIso);
        (Success(store[(o.bucketName, o.fileName) := w.data]), cache')
  }

  /**
    `deleteFromGCS`: names are required; a missing object is skipped without
    error; otherwise exactly that object is removed.
   */
  function Delete(store: Store, cache: Option<Client>, env: Env, constructError: Option<string>,
                  bucketName: string, fileName: string): (r: (Result<Store, string>, Option<Client>))
    ensures bucketName == "" || fileName == "" ==> r == (Failure(NamesRequiredForDeletion), cache)
    ensures r.0.Success? ==> (bucketName, fileName) !in r.0.value
    ensures r.0.Success? ==> forall key :: key != (bucketName, fileName) ==>
      (key in r.0.value <==> key in store) && (key in store ==> r.0.value[key] == store[key])
    ensures r.0.Success? && (bucketName, fileName) !in store ==> r.0.value == store
  {
    if bucketName == "" || fileName == "" then (Failure(NamesRequiredForDeletion), cache)
    else
      var (client, cache') := GetClient(cache, env, constructError);
      match client
      case Failure(message) =>
        (Failure("Failed to delete " + fileName + ": " + message + ". Check your bucket permissions."), cache')
      case Success(_) =>
        if (bucketName, fileName) !in store then (Success(store), cache')
        else (Success(store - {(bucketName, fileName)}), cache')
  }

  /** Deleting an object just uploaded restores the store as it was without that object. */
  lemma UploadThenDelete(store: Store, cache: Option<Client>, env: Env, o: UploadOptions, nowIso: string)
    requires Upload(store, cache, env, None, o, nowIso).0.Success?
    ensures var up := Upload(store, cache, env, None, o, nowIso);
      var down := Delete(up.0.value, up.1, env, None, o.bucketName, o.fileName);
      down.0.Success? && down.0.value == store - {(o.bucketName, o.fileName)}
  {
    var up := Upload(store, cache, env, None, o, nowIso);
    var down := Delete(up.0.value, up.1, env, None, o.bucketName, o.fileName);
    assert up.1.Some?;
    assert down.0.value == up.0.value - {(o.bucketName, o.fileName)};
  }

  // ---------------------------------------------------------------------------
  // Signed URLs
  // ---------------------------------------------------------------------------

  datatype Action = Read | Write

  /** Minutes a signed URL lives when the caller gives none: an hour to read, a quarter hour to write. */
  function DefaultMinutes(a: Action): int {
    match a
    case Read => 60
    case Write => 15
  }

  /** The `expires` option: now plus the given (or default) minutes, in milliseconds. */
  function SignedUrlExpiry(a: Action, now: int, minutes: Option<int>): (expires: int)
    ensures minutes.None? ==> expires - now == DefaultMinutes(a) * 60000
    ensures minutes.Some? ==> expires - now == minutes.value * 60000
  {
    now + (if minutes.Some? then minutes.value else DefaultMinutes(a)) * 60 * 1000
  }

  /** The URL outlives the request exactly when the minutes are positive, and longer windows expire later. */
  lemma SignedUrlExpiryOrder(a: Action, now: int, m1: int, m2: int)
    ensures SignedUrlExpiry(a, now, Some(m1)) > now <==> m1 > 0
    ensures m1 <= m2 ==> SignedUrlExpiry(a, now, Some(m1)) <= SignedUrlExpiry(a, now, Some(m2))
    ensures SignedUrlExpiry(Read, now, None) == now + 3600000
    ensures SignedUrlExpiry(Write, now, None) == now + 900000
  {
  }

  // ---------------------------------------------------------------------------
  // Reading an object path out of a URL
  // ---------------------------------------------------------------------------

  const Host: string := "https://storage.googleapis.com/"

  /** The characters a regular-expression `.` does not match. */
  predicate LineTerminator(c: char) {
    c == '\n' || c == '\r' || c == '\U{2028}' || c == '\U{2029}'
  }

  /** The first index at or after `from` holding a slash, or the length. */
  function NextSlash(s: string, from: nat): (j: nat)
    requires from <= |s|
    ensures from <= j <= |s|
    ensures forall k :: from <= k < j ==> s[k] != '/'
    ensures j < |s| ==> s[j] == '/'
    decreases |s| - from
  {
    if from == |s| || s[from] == '/' then from else NextSlash(s, from + 1)
  }

  /** The first index at or after `from` holding a line terminator, or the length. */
  function LineEnd(s: string, from: nat): (j: nat)
    requires from <= |s|
    ensures from <= j <= |s|
    ensures forall k :: from <= k < j ==> !LineTerminator(s[k])
    ensures j < |s| ==> LineTerminator(s[j])
    decreases |s| - from
  {
    if from == |s| || LineTerminator(s[from]) then from else LineEnd(s, from + 1)
  }

  /**
    The host prefix occurs at `i`. The matching below is stated for any host
    prefix, and `ExtractFilePath` uses it with `Host`.
   */
  predicate HostAt(s: string, host: string, i: int) {
    0 <= i && i + |host| <= |s| && s[i..i + |host|] == host
  }

  /** What the bucket group `[^\/]+` can match. */
  predicate SlashFree(t: string) {
    t != [] && forall k :: 0 <= k < |t| ==> t[k] != '/'
  }

  /** What the path group `.+` can match. */
  predicate LineFree(t: string) {
    t != [] && forall k :: 0 <= k < |t| ==> !LineTerminator(t[k])
  }

  /**
    A match of `/https:\/\/storage\.googleapis\.com\/([^\/]+)\/(.+)/` starting
    at `i`, with its separating slash at `j` and ending at `k`: the host, a
    non-empty bucket `s[i + |host|..j]` without slashes, the slash, and a
    non-empty path `s[j + 1..k]` without line terminators.
   */
  ghost predicate MatchesAt(s: string, host: string, i: int, j: int, k: int) {
    && HostAt(s, host, i)
    && i + |host| < j && j + 1 < k <= |s|
    && s[j] == '/'
    && (forall n :: i + |host| <= n < j ==> s[n] != '/')
    && (forall n :: j < n < k ==> !LineTerminator(s[n]))
  }

  /**
    The regular expression tried at `i`. The bucket group takes every
    non-slash character it can, so it must stop at a slash; the path group
    then runs to the end of the line.
   */
  function MatchAt(s: string, host: string, i: nat): (r: Option<string>)
    requires i <= |s|
  {
    if HostAt(s, host, i) then GroupsFrom(s, i + |host|) else None
  }

  /** The two groups, tried from just after the host at `b`; returns the path group. */
  function GroupsFrom(s: string, b: nat): Option<string>
    requires b <= |s|
  {
    var j := NextSlash(s, b);
    if b < j < |s| then
      var k := LineEnd(s, j + 1);
      if j + 1 < k then Some(s[j + 1..k]) else None
    else None
  }

  /** The leftmost match at or after `i`. */
  function SearchFrom(s: string, host: string, i: nat): Option<string>
    requires i <= |s|
    decreases |s| - i
  {
    match MatchAt(s, host, i)
    case Some(path) => Some(path)
    case None => if i == |s| then None else SearchFrom(s, host, i + 1)
  }

  /** `extractFilePathFromGCSUrl`: the path group of the leftmost match, or `None`. */
  function ExtractFilePath(url: string): Option<string> {
    SearchFrom(url, Host, 0)
  }

  /** What `MatchAt` finds is a match, with the longest path the line allows. */
  lemma MatchAtSound(s: string, host: string, i: nat)
    requires i <= |s| && MatchAt(s, host, i).Some?
    ensures var j := NextSlash(s, i + |host|); var k := LineEnd(s, j + 1);
      MatchesAt(s, host, i, j, k) && MatchAt(s, host, i).value == s[j + 1..k]
  {
    assert HostAt(s, host, i);
  }

  /** The first slash at or after `from` is the one that ends a slash-free run. */
  lemma {:induction false} NextSlashAt(s: string, from: nat, j: nat)
    requires from <= j < |s| && s[j] == '/'
    requires forall n :: from <= n < j ==> s[n] != '/'
    ensures NextSlash(s, from) == j
    decreases j - from
  {
    if from < j {
      NextSlashAt(s, from + 1, j);
    }
  }

  /** A run without line terminators from `from` up to `k` ends no later than the line. */
  lemma {:induction false} LineEndAtLeast(s: string, from: nat, k: nat)
    requires from <= k <= |s|
    requires forall n :: from <= n < k ==> !LineTerminator(s[n])
    ensures k <= LineEnd(s, from)
    decreases k - from
  {
    if from < k {
      LineEndAtLeast(s, from + 1, k);
    }
  }

  /** Wherever a match exists, `MatchAt` finds one there, with a path at least as long. */
  lemma MatchAtComplete(s: string, host: string, i: int, j: int, k: int)
    requires MatchesAt(s, host, i, j, k)
    ensures k <= LineEnd(s, j + 1)
    ensures MatchAt(s, host, i) == Some(s[j + 1..LineEnd(s, j + 1)])
  {
    NextSlashAt(s, i + |host|, j);
    LineEndAtLeast(s, j + 1, k);
  }

  /** No match of the pattern starts at any offset in `[lo, hi)`. */
  ghost predicate NoMatchIn(s: string, host: string, lo: int, hi: int) {
    forall m, j, k :: lo <= m < hi ==> !MatchesAt(s, host, m, j, k)
  }

  lemma {:induction false} SearchFromSound(s: string, host: string, i: nat)
    requires i <= |s|
    ensures SearchFrom(s, host, i).Some? ==>
      exists m, j, k :: && i <= m && MatchesAt(s, host, m, j, k) && SearchFrom(s, host, i).value == s[j + 1..k]
                        && NoMatchIn(s, host, i, m)
    ensures SearchFrom(s, host, i).None? ==> forall m, j, k :: i <= m ==> !MatchesAt(s, host, m, j, k)
    decreases |s| - i
  {
    if MatchAt(s, host, i).Some? {
      MatchAtSound(s, host, i);
      var j := NextSlash(s, i + |host|);
      var k := LineEnd(s, j + 1);
      assert MatchesAt(s, host, i, j, k) && NoMatchIn(s, host, i, i);
    } else {
      forall j, k | MatchesAt(s, host, i, j, k)
        ensures false
      {
        MatchAtComplete(s, host, i, j, k);
      }
      if i < |s| {
        SearchFromSound(s, host, i + 1);
        if SearchFrom(s, host, i + 1).Some? {
          var m, j, k :| && i + 1 <= m && MatchesAt(s, host, m, j, k) && SearchFrom(s, host, i + 1).value == s[j + 1..k]
                         && NoMatchIn(s, host, i + 1, m);
          assert NoMatchIn(s, host, i, m);
        }
      }
    }
  }

  /**
    `extractFilePathFromGCSUrl` returns null exactly when the URL holds no
    match anywhere, and otherwise the path group of the leftmost match.
   */
  lemma ExtractFilePathSound(url: string)
    ensures ExtractFilePath(url).None? <==> forall m, j, k :: !MatchesAt(url, Host, m, j, k)
    ensures ExtractFilePath(url).Some? ==>
      exists m, j, k :: MatchesAt(url, Host, m, j, k) && ExtractFilePath(url).value == url[j + 1..k] && NoMatchIn(url, Host, 0, m)
  {
    SearchFromSound(url, Host, 0);
  }

  /** A URL made of a host, a bucket, a slash and a path matches at its start with that path. */
  lemma SearchFromPrefixed(host: string, bucket: string, path: string)
    requires SlashFree(bucket) && LineFree(path)
    ensures SearchFrom(host + bucket + "/" + path, host, 0) == Some(path)
  {
    var url := host + bucket + "/" + path;
    var j := |host| + |bucket|;
    assert HostAt(url, host, 0) by {
      assert url[..|host|] == host;
    }
    forall n | |host| <= n < j
      ensures url[n] != '/'
    {
      assert url[n] == bucket[n - |host|];
    }
    forall n | j < n < |url|
      ensures !LineTerminator(url[n])
    {
      assert url[n] == path[n - j - 1];
    }
    assert MatchesAt(url, host, 0, j, |url|);
    MatchAtComplete(url, host, 0, j, |url|);
    assert url[j + 1..|url|] == path;
    assert MatchAt(url, host, 0) == Some(path);
  }

  /** The path of an object URL reads back out of it. */
  lemma ExtractFilePathRoundTrip(bucket: string, path: string)
    requires SlashFree(bucket) && LineFree(path)
    ensures ExtractFilePath(Host + bucket + "/" + path) == Some(path)
  {
    SearchFromPrefixed(Host, bucket, path);
  }

  // ---------------------------------------------------------------------------
  // The bucket
  // ---------------------------------------------------------------------------

  const MissingBucket: string := "GCS_BUCKET_NAME environment variable is required"

  /** `getGCSBucketName`: the `GCS_BUCKET_NAME` variable, which must be set and non-empty. */
  function BucketName(bucketVar: Option<string>): (r: Result<string, string>)
    ensures r.Success? <==> Truthy(bucketVar)
    ensures r.Success? ==> r.value == bucketVar.value && r.value != ""
    ensures r.Failure? ==> r.error == MissingBucket
  {
    if Truthy(bucketVar) then Success(bucketVar.value) else Failure(MissingBucket)
  }
}
