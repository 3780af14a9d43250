/** The Aliyun OSS uploader of src/providers/aliyun.ts: the string it signs, the
    `Authorization` value, the host and object URL, and the request it fires. HMAC-SHA1 with
    base64 output is a parameter, and so are the two clock readings. */
module Aliyun {
  import opened Types
  import opened Text

  /** The fields of an `aliyun-oss` provider record that the uploader reads. */
  datatype AliyunOSSProvider = AliyunOSSProvider(
    bucket: string,
    area: string,
    accessKeyId: string,
    accessKeySecret: string)

  /** base64(HMAC-SHA1(key, message)). */
  type HmacSha1Base64 = (string, string) -> string

  /** The request headers, one field per key of the header object. `contentType` is `None`
      where the descriptor has no content type (the `!` assertion does not check it). */
  datatype Headers = Headers(host: string, authorization: string, date: string, contentType: Option<string>)

  datatype HttpRequest = HttpRequest(verb: string, url: string, headers: Headers)

  /** The canonical string: verb, empty Content-MD5, content type, date, then the resource
      `/bucket/path`, separated by newlines. */
  function StringToSign(mimeType: string, date: string, bucket: string, path: string): string {
    "PUT\n\n" + mimeType + "\n" + date + "\n/" + bucket + "/" + path
  }

  /** The canonical string is the five lines, in order. */
  lemma StringToSignLayout(mimeType: string, date: string, bucket: string, path: string)
    ensures StringToSign(mimeType, date, bucket, path) == Join(["PUT", "", mimeType, date, "/" + bucket + "/" + path], '\n')
  {
    var lines := ["PUT", "", mimeType, date, "/" + bucket + "/" + path];
    assert Join(lines[4..], '\n') == "/" + bucket + "/" + path;
    assert Join(lines[3..], '\n') == date + "\n" + Join(lines[4..], '\n') by { assert lines[3..][1..] == lines[4..]; }
    assert Join(lines[2..], '\n') == mimeType + "\n" + Join(lines[3..], '\n') by { assert lines[2..][1..] == lines[3..]; }
    assert Join(lines[1..], '\n') == "" + "\n" + Join(lines[2..], '\n') by { assert lines[1..][1..] == lines[2..]; }
    assert Join(lines, '\n') == "PUT" + "\n" + Join(lines[1..], '\n');
  }

  /** A reader that splits the canonical string at its newlines gets the five fields back, as
      long as none of them holds a newline. */
  lemma StringToSignFields(mimeType: string, date: string, bucket: string, path: string)
    requires '\n' !in mimeType && '\n' !in date && '\n' !in bucket && '\n' !in path
    ensures Split(StringToSign(mimeType, date, bucket, path), '\n') == ["PUT", "", mimeType, date, "/" + bucket + "/" + path]
  {
    var lines := ["PUT", "", mimeType, date, "/" + bucket + "/" + path];
    StringToSignLayout(mimeType, date, bucket, path);
    assert '\n' !in "/" + bucket + "/" + path;
    assert NoSeparator(lines, '\n');
    SplitJoin(lines, '\n');
  }

  /** The header value `OSS <accessKeyId>:<signature>`. */
  function AuthorizationValue(accessKeyId: string, signature: string): string {
    "OSS " + accessKeyId + ":" + signature
  }

  /** How a server reads an `Authorization` value: the `OSS ` scheme, then the key id up to
      the first ':', then the signature. */
  function ParseAuthorization(v: string): Option<(string, string)> {
    if |v| >= 4 && v[..4] == "OSS " then
      var rest := v[4..];
      var k := IndexOf(rest, ':');
      if k < |rest| then Some((rest[..k], rest[k + 1..])) else None
    else
      None
  }

  lemma AuthorizationRoundTrip(accessKeyId: string, signature: string)
    requires ':' !in accessKeyId
    ensures ParseAuthorization(AuthorizationValue(accessKeyId, signature)) == Some((accessKeyId, signature))
  {
    var v := AuthorizationValue(accessKeyId, signature);
    var rest := accessKeyId + [':'] + signature;
    assert v[..4] == "OSS " && v[4..] == rest;
    IndexOfAfter(accessKeyId, ':', signature);
    assert rest[..|accessKeyId|] == accessKeyId && rest[|accessKeyId| + 1..] == signature;
  }

  /** `generateSignature`: the `Authorization` value for `path`, signed over the canonical
      string with the provider's secret. */
  function GenerateSignature(p: AliyunOSSProvider, path: string, mimeType: string, date: string, hmac: HmacSha1Base64): string {
    AuthorizationValue(p.accessKeyId, hmac(p.accessKeySecret, StringToSign(mimeType, date, p.bucket, path)))
  }

  /** A server reading the generated value finds the provider's key id and the HMAC of the
      canonical string under its secret, as long as the key id holds no ':'. */
  lemma GenerateSignatureParses(p: AliyunOSSProvider, path: string, mimeType: string, date: string, hmac: HmacSha1Base64)
    requires ':' !in p.accessKeyId
    ensures ParseAuthorization(GenerateSignature(p, path, mimeType, date, hmac))
      == Some((p.accessKeyId, hmac(p.accessKeySecret, StringToSign(mimeType, date, p.bucket, path))))
  {
    AuthorizationRoundTrip(p.accessKeyId, hmac(p.accessKeySecret, StringToSign(mimeType, date, p.bucket, path)));
  }

  /** `{bucket}.{area}.aliyuncs.com`. */
  function Host(p: AliyunOSSProvider): string {
    p.bucket + "." + p.area + ".aliyuncs.com"
  }

  /** The object URL: https, the host, then the encoded remote path. */
  function ObjectUrl(p: AliyunOSSProvider, path: string): string {
    "https://" + Host(p) + "/" + EncodeURI(path)
  }

  /** The characters that end the authority of a URL: the start of the path, the query or
      the fragment. */
  predicate EndsAuthority(c: char) {
    c == '/' || c == '?' || c == '#'
  }

  predicate NoAuthorityEnd(s: string) {
    forall j :: 0 <= j < |s| ==> !EndsAuthority(s[j])
  }

  /** Position of the first character that ends the authority, or `|s|` when none does. */
  function AuthorityEnd(s: string): (k: nat)
    ensures k <= |s|
    ensures k < |s| ==> EndsAuthority(s[k])
    ensures forall j :: 0 <= j < k ==> !EndsAuthority(s[j])
    decreases |s|
  {
    if s == [] then 0 else if EndsAuthority(s[0]) then 0 else 1 + AuthorityEnd(s[1..])
  }

  /** The authority of an `https://` URL: everything after the scheme up to the first '/',
      '?' or '#'. */
  function UrlHost(url: string): Option<string> {
    if |url| >= 8 && url[..8] == "https://" then
      var rest := url[8..];
      Some(rest[..AuthorityEnd(rest)])
    else
      None
  }

  /** The Host header names the host the URL points at, when neither the bucket nor the area
      holds a '/', '?' or '#'. */
  lemma HostHeaderMatchesUrl(p: AliyunOSSProvider, path: string)
    requires NoAuthorityEnd(p.bucket) && NoAuthorityEnd(p.area)
    ensures UrlHost(ObjectUrl(p, path)) == Some(Host(p))
  {
    HostHasNoAuthorityEnd(p);
    UrlHostOf(Host(p), EncodeURI(path));
    assert ObjectUrl(p, path) == "https://" + (Host(p) + ['/'] + EncodeURI(path));
  }

  lemma HostHasNoAuthorityEnd(p: AliyunOSSProvider)
    requires NoAuthorityEnd(p.bucket) && NoAuthorityEnd(p.area)
    ensures NoAuthorityEnd(Host(p))
  {
    var h := Host(p);
    forall j | 0 <= j < |h| ensures !EndsAuthority(h[j]) {
      var lb, la := |p.bucket|, |p.area|;
      if j < lb {
        assert h[j] == p.bucket[j];
      } else if j == lb || lb + 1 + la <= j {
        assert h[j] in ".aliyuncs.com";
      } else {
        assert h[j] == p.area[j - lb - 1];
      }
    }
  }

  /** The authority ends at the '/' after `h` when `h` holds no character that ends it. */
  lemma AuthorityEndAfter(h: string, e: string)
    requires NoAuthorityEnd(h)
    ensures AuthorityEnd(h + ['/'] + e) == |h|
  {
    var s := h + ['/'] + e;
    assert s[|h|] == '/';
    assert forall j :: 0 <= j < |h| ==> s[j] == h[j];
  }

  /** The authority of `https://h/e` is `h` when `h` holds no '/', '?' or '#'. */
  lemma UrlHostOf(h: string, e: string)
    requires NoAuthorityEnd(h)
    ensures UrlHost("https://" + (h + ['/'] + e)) == Some(h)
  {
    var rest := h + ['/'] + e;
    ConcatSplits("https://", rest);
    AuthorityEndAfter(h, e);
    assert rest == h + (['/'] + e);
    ConcatSplits(h, ['/'] + e);
  }

  /** Splitting a concatenation at the join. It models nothing of the source:
      it is a lemma of its own only to keep the proofs that use it small. */
  lemma ConcatSplits(a: string, b: string)
    ensures (a + b)[..|a|] == a && (a + b)[|a|..] == b
  {
  }

  /** The URL is the one path-encoded form of the remote path: each '/'-separated segment is
      encoded on its own and the separators stay. */
  lemma ObjectUrlSegments(p: AliyunOSSProvider, dir: string, name: string)
    ensures ObjectUrl(p, dir + "/" + name) == "https://" + Host(p) + "/" + EncodeURI(dir) + "/" + EncodeURI(name)
  {
    var d, n := EncodeURI(dir), EncodeURI(name);
    EncodeURIAppend(dir + "/", name);
    EncodeURIAppend(dir, "/");
    assert EncodeURI("/") == "/" by { EncodeURIKeepsUnescaped("/"); }
    assert EncodeURI(dir + "/" + name) == d + "/" + n;
    ConcatFour("https://" + Host(p) + "/", d, "/", n);
  }

  /** Regrouping a four-part concatenation. It models nothing of the source:
      it is a lemma of its own only to keep the proofs that use it small. */
  lemma ConcatFour(a: string, b: string, c: string, d: string)
    ensures a + (b + c + d) == a + b + c + d
  {
  }

  /** `AliyunOSSUploader.uploadFile`. Without a (non-empty) MIME type it throws and sends
      nothing; otherwise it fires the PUT request and resolves undefined, whatever the HTTP
      outcome, since the request's promise is neither awaited nor returned. The signature is
      over the MIME type, while the Content-Type header carries the content type. The clock is
      read twice: once for the signed date, once for the Date header. */
  function UploadFile(p: AliyunOSSProvider, file: OSSFile, signDate: string, headerDate: string, hmac: HmacSha1Base64): (r: Result<HttpRequest>)
    ensures r.Failure? <==> file.mimeType.None? || file.mimeType.value == ""
    ensures r.Failure? ==> r.error == "No mime type found for file " + file.filename
    ensures r.Success? ==> r.value.verb == "PUT" && r.value.url == ObjectUrl(p, file.remoteFilePath)
    ensures r.Success? ==> r.value.headers.host == Host(p) && r.value.headers.date == headerDate
    ensures r.Success? ==> r.value.headers.contentType == file.contentType
  {
    if file.mimeType.None? || file.mimeType.value == "" then
      Failure("No mime type found for file " + file.filename)
    else
      var signature := GenerateSignature(p, file.remoteFilePath, file.mimeType.value, signDate, hmac);
      Success(HttpRequest("PUT", ObjectUrl(p, file.remoteFilePath), Headers(Host(p), signature, headerDate, file.contentType)))
  }

  /** The request's `Authorization` header carries the provider's key id and the HMAC of the
      canonical string over the MIME type and the signing date, under the provider's secret. */
  lemma UploadFileSigned(p: AliyunOSSProvider, file: OSSFile, signDate: string, headerDate: string, hmac: HmacSha1Base64)
    requires UploadFile(p, file, signDate, headerDate, hmac).Success? && ':' !in p.accessKeyId
    ensures ParseAuthorization(UploadFile(p, file, signDate, headerDate, hmac).value.headers.authorization)
      == Some((p.accessKeyId, hmac(p.accessKeySecret, StringToSign(file.mimeType.value, signDate, p.bucket, file.remoteFilePath))))
  {
    GenerateSignatureParses(p, file.remoteFilePath, file.mimeType.value, signDate, hmac);
  }
}
