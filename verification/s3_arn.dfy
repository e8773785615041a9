/** The helpers of the gMSA API integration test: reading an environment variable and
    cutting an S3 object ARN into its bucket and key. The environment is an input. */
module IntegrationTest {
  import opened Wrappers
  import opened Exceptions
  import opened Strings
  import opened Credspec

  /** The values a C++ `size_t` holds are taken modulo this number. */
  const SizeModulus := 0x1_0000_0000_0000_0000

  /** `std::string::npos`, the largest `size_t`; `find` answers it when nothing is found,
      and no string is this long. */
  const NPos := SizeModulus - 1

  /** The environment variable that names the credential spec's ARN. */
  const CredspecArnVariable := "CF_TEST_CREDSPEC_ARN"

  const UnsetMessage := "Environment variable not set: "

  /** `get_environment_var`: the value unchanged, or a runtime error naming the
      variable when it is unset. */
  function GetEnvironmentVar(env: string -> Option<string>, name: string): (r: Result<string, Exception>)
    ensures r.Success? <==> env(name).Some?
    ensures r.Success? ==> r.value == env(name).value
    ensures r.Failure? ==> r.error == RuntimeError(UnsetMessage + name)
  {
    match env(name)
    case None => Failure(RuntimeError(UnsetMessage + name))
    case Some(v) => Success(v)
  }

  /** The pieces of `s` with their empty entries removed. */
  function NonEmpty(pieces: seq<string>): (r: seq<string>)
    ensures forall k :: 0 <= k < |r| ==> |r[k]| > 0
    ensures |r| <= |pieces|
    decreases |pieces|
  {
    if |pieces| == 0 then []
    else if |pieces[0]| == 0 then NonEmpty(pieces[1..])
    else [pieces[0]] + NonEmpty(pieces[1..])
  }

  /** Dropping empty pieces keeps exactly the non-empty ones. */
  lemma {:induction false} NonEmptyMembers(pieces: seq<string>)
    ensures forall k :: 0 <= k < |NonEmpty(pieces)| ==> NonEmpty(pieces)[k] in pieces
    ensures forall k :: 0 <= k < |pieces| && |pieces[k]| > 0 ==> pieces[k] in NonEmpty(pieces)
    decreases |pieces|
  {
    if |pieces| > 0 {
      NonEmptyMembers(pieces[1..]);
      assert forall k :: 1 <= k < |pieces| ==> pieces[k] == pieces[1..][k - 1];
    }
  }

  /** `Aws::Utils::StringUtils::Split(s, c)`: the pieces between the occurrences of `c`,
      empty entries left out (the library's default, taken here as an assumption since its
      source is not part of this model). */
  function AwsSplit(s: string, c: char): (r: seq<string>)
    ensures forall k :: 0 <= k < |r| ==> |r[k]| > 0 && r[k] in Split(s, [c])
    ensures forall k :: 0 <= k < |Split(s, [c])| && |Split(s, [c])[k]| > 0 ==> Split(s, [c])[k] in r
  {
    NonEmptyMembers(Split(s, [c]));
    NonEmpty(Split(s, [c]))
  }

  /** `s.find(c)`: the first index of `c`, or `npos`. */
  function FindChar(s: string, c: char): (pos: nat)
    requires |s| < NPos
    ensures pos == NPos <==> c !in s
    ensures pos < NPos ==> pos < |s| && s[pos] == c && c !in s[..pos]
  {
    ContainsChar(s, c);
    match Find(s, [c])
    case None => NPos
    case Some(k) =>
      FindCharAt(s, c, k);
      k
  }

  /** `s.substr(pos, count)` for a valid start: at most `count` characters from `pos`. */
  function Substr(s: string, pos: nat, count: nat): (r: string)
    requires pos <= |s|
    ensures |r| == if pos + count <= |s| then count else |s| - pos
    ensures r <= s[pos..]
  {
    if pos + count <= |s| then s[pos..pos + count] else s[pos..]
  }

  /** An S3 object's coordinates. */
  datatype S3Object = S3Object(bucket: string, key: string)

  /** The resource part of the ARN: the fourth non-empty ':'-separated piece. Fewer
      pieces would read past the end of the vector, which the test never guards
      against; it is a precondition here. */
  function ResourcePart(arn: string): string
    requires |AwsSplit(arn, ':')| >= 4
  {
    AwsSplit(arn, ':')[3]
  }

  /** `parseS3Arn`: the resource part cut at its first '/'. */
  function ParseS3Arn(arn: string): (r: S3Object)
    requires |AwsSplit(arn, ':')| >= 4
    requires |arn| < NPos
    ensures '/' in ResourcePart(arn) ==>
      '/' !in r.bucket && r.bucket + "/" + r.key == ResourcePart(arn)
    ensures '/' !in ResourcePart(arn) ==> r.bucket == ResourcePart(arn) && r.key == ResourcePart(arn)
  {
    AwsSplitPieceShorter(arn, ':', 3);
    CutResource(ResourcePart(arn))
  }

  /** The bucket before the first '/' and the key after it. When there is no '/', `find`
      answers `npos`, `npos + 1` wraps to 0, and bucket and key are both the whole
      resource. */
  function CutResource(resource: string): (r: S3Object)
    requires |resource| < NPos
    ensures '/' in resource ==> '/' !in r.bucket && r.bucket + "/" + r.key == resource
    ensures '/' !in resource ==> r.bucket == resource && r.key == resource
  {
    var pos := FindChar(resource, '/');
    var start := (pos + 1) % SizeModulus;
    if pos == NPos then
      assert start == 0;
      assert resource[0..] == resource;
      S3Object(Substr(resource, 0, pos), Substr(resource, start, NPos))
    else
      assert start == pos + 1;
      Around(resource, pos, '/');
      S3Object(Substr(resource, 0, pos), Substr(resource, start, NPos))
  }

  /** Every non-empty piece is at most as long as the split text. */
  lemma AwsSplitPieceShorter(s: string, c: char, k: nat)
    requires k < |AwsSplit(s, c)|
    ensures |AwsSplit(s, c)[k]| <= |s|
  {
    SplitJoin(s, [c]);
    NonEmptyKeepsPieces(Split(s, [c]), k);
    var j :| 0 <= j < |Split(s, [c])| && Split(s, [c])[j] == AwsSplit(s, c)[k];
    JoinHoldsPiece(Split(s, [c]), [c], j);
  }

  lemma {:induction false} NonEmptyKeepsPieces(pieces: seq<string>, k: nat)
    requires k < |NonEmpty(pieces)|
    ensures NonEmpty(pieces)[k] in pieces
    decreases |pieces|
  {
    if |pieces[0]| == 0 {
      NonEmptyKeepsPieces(pieces[1..], k);
    } else if k > 0 {
      NonEmptyKeepsPieces(pieces[1..], k - 1);
    }
  }

  lemma {:induction false} JoinHoldsPiece(pieces: seq<string>, sep: string, j: nat)
    requires j < |pieces|
    ensures |pieces[j]| <= |Join(pieces, sep)|
    decreases |pieces|
  {
    if |pieces| > 1 && j > 0 {
      JoinHoldsPiece(pieces[1..], sep, j - 1);
    }
  }

  /** The pieces of an S3 object ARN: "arn", "aws", "s3", two empty ones (region and
      account) and the resource. */
  lemma S3ArnPieces(rest: string)
    ensures S3ArnPrefix + rest == Join(["arn", "aws", "s3", "", "", rest], ":")
  {
    var j5 := Join([rest], ":");
    assert j5 == rest;
    var j4 := Join(["", rest], ":");
    assert ["", rest][1..] == [rest];
    assert j4 == ":" + rest;
    var j3 := Join(["", "", rest], ":");
    assert ["", "", rest][1..] == ["", rest];
    assert j3 == "::" + rest;
    var j2 := Join(["s3", "", "", rest], ":");
    assert ["s3", "", "", rest][1..] == ["", "", rest];
    assert j2 == "s3:::" + rest;
    var j1 := Join(["aws", "s3", "", "", rest], ":");
    assert ["aws", "s3", "", "", rest][1..] == ["s3", "", "", rest];
    assert j1 == "aws:s3:::" + rest;
    assert ["arn", "aws", "s3", "", "", rest][1..] == ["aws", "s3", "", "", rest];
  }

  /** An S3 object ARN "arn:aws:s3:::<bucket>/<key>" parses back into its bucket and
      key, when the bucket is non-empty and holds neither ':' nor '/' and the key holds
      no ':'. The key may hold further '/'. */
  lemma {:induction false} ParseS3ArnRoundTrip(bucket: string, key: string)
    requires |bucket| > 0 && ':' !in bucket && '/' !in bucket && ':' !in key
    requires |S3ArnPrefix + bucket + "/" + key| < NPos
    ensures |AwsSplit(S3ArnPrefix + bucket + "/" + key, ':')| >= 4
    ensures ParseS3Arn(S3ArnPrefix + bucket + "/" + key) == S3Object(bucket, key)
  {
    var rest := bucket + "/" + key;
    var arn := S3ArnPrefix + rest;
    assert S3ArnPrefix + bucket + "/" + key == arn;
    var pieces := ["arn", "aws", "s3", "", "", rest];
    assert ':' !in rest by {
      assert forall j :: 0 <= j < |rest| ==> rest[j] == (if j < |bucket| then bucket[j] else if j == |bucket| then '/' else key[j - |bucket| - 1]);
    }
    S3ArnPieces(rest);
    SplitOfJoin(pieces, ':');
    assert AwsSplit(arn, ':') == NonEmpty(pieces);
    NonEmptyS3Pieces(rest);
    assert ResourcePart(arn) == rest;
    assert rest[|bucket|] == '/';
    var r := ParseS3Arn(arn);
    CutAtFirst(r.bucket, r.key, bucket, key, '/');
  }

  lemma NonEmptyS3Pieces(rest: string)
    requires |rest| > 0
    ensures NonEmpty(["arn", "aws", "s3", "", "", rest]) == ["arn", "aws", "s3", rest]
  {
    assert NonEmpty([rest]) == [rest] by { assert [rest][1..] == []; }
    assert ["", rest][1..] == [rest];
    assert NonEmpty(["", rest]) == [rest];
    assert ["", "", rest][1..] == ["", rest];
    assert NonEmpty(["", "", rest]) == [rest];
    assert ["s3", "", "", rest][1..] == ["", "", rest];
    assert NonEmpty(["s3", "", "", rest]) == ["s3", rest];
    assert ["aws", "s3", "", "", rest][1..] == ["s3", "", "", rest];
    assert NonEmpty(["aws", "s3", "", "", rest]) == ["aws", "s3", rest];
    assert ["arn", "aws", "s3", "", "", rest][1..] == ["aws", "s3", "", "", rest];
  }

  /** The credential reference the copy scripts store names an ARN that the test's
      parser reads back as the uploaded object. */
  lemma ReferenceNamesUploadedObject(bucket: string, gmsaName: string)
    requires |bucket| > 0 && ':' !in bucket && '/' !in bucket && ':' !in gmsaName
    requires UploadCredspec(bucket, gmsaName, true).Some?
    requires var ref := CredentialReference(UploadCredspec(bucket, gmsaName, true).value);
      |ref[|ReferencePrefix|..]| < NPos
    ensures var ref := CredentialReference(UploadCredspec(bucket, gmsaName, true).value);
      |AwsSplit(ref[|ReferencePrefix|..], ':')| >= 4
      && ParseS3Arn(ref[|ReferencePrefix|..]) == S3Object(bucket, gmsaName + KeySuffix)
  {
    var loc := UploadCredspec(bucket, gmsaName, true).value;
    var key := gmsaName + KeySuffix;
    assert loc == S3Location(S3ArnPrefix + bucket, key);
    assert ':' !in KeySuffix;
    assert ':' !in key by {
      assert forall j :: 0 <= j < |key| ==> key[j] == (if j < |gmsaName| then gmsaName[j] else KeySuffix[j - |gmsaName|]);
    }
    var ref := CredentialReference(loc);
    assert ref[|ReferencePrefix|..] == S3ArnPrefix + bucket + "/" + key;
    ParseS3ArnRoundTrip(bucket, key);
  }
}
