/** `createUploader` of src/providers/index.ts: the provider record's `name` picks one of the
    three uploader variants, anything else is refused. */
module Providers {
  import opened Types
  import Aliyun

  /** A provider record: its `name` tag and the object-store fields the Aliyun uploader reads.
      The Tencent and custom records' other fields (the custom `upload` function among them)
      are not inspected by the core; the custom function is an input of the orchestrator. */
  datatype ProviderConfig = ProviderConfig(name: string, oss: Aliyun.AliyunOSSProvider)

  /** The uploader variants, each built from the provider record it was selected by. */
  datatype Uploader =
    | AliyunOSSUploader(provider: ProviderConfig)
    | TencentCOSUploader(provider: ProviderConfig)
    | CustomUploader(provider: ProviderConfig)

  /** The provider name each variant answers to. */
  function VariantName(u: Uploader): string {
    match u
    case AliyunOSSUploader(_) => "aliyun-oss"
    case TencentCOSUploader(_) => "tencent-cloud-cos"
    case CustomUploader(_) => "custom"
  }

  predicate IsSupportedName(name: string) {
    name == "aliyun-oss" || name == "tencent-cloud-cos" || name == "custom"
  }

  /** `createUploader`. A supported name yields the variant that answers to it, built from the
      very record given; any other name is the error `Unsupported provider: <name>`. */
  function CreateUploader(provider: ProviderConfig): (r: Result<Uploader>)
    ensures r.Success? <==> IsSupportedName(provider.name)
    ensures r.Success? ==> r.value.provider == provider && VariantName(r.value) == provider.name
    ensures r.Failure? ==> r.error == "Unsupported provider: " + provider.name
  {
    match provider.name
    case "aliyun-oss" => Success(AliyunOSSUploader(provider))
    case "tencent-cloud-cos" => Success(TencentCOSUploader(provider))
    case "custom" => Success(CustomUploader(provider))
    case _ => Failure("Unsupported provider: " + provider.name)
  }

  /** Selecting is inverse to naming: a record tagged with a variant's name selects exactly
      that variant. */
  lemma CreateUploaderInverse(u: Uploader)
    requires u.provider.name == VariantName(u)
    ensures CreateUploader(u.provider) == Success(u)
  {
  }

  /** There is no SSH branch: an SSH provider record is refused like any unknown name. */
  lemma SshIsUnsupported(provider: ProviderConfig)
    requires provider.name == "ssh"
    ensures CreateUploader(provider) == Failure("Unsupported provider: ssh")
  {
  }
}
