/** The WebDAV settings (src/sync/config.rs): their defaults, when sync counts
    as configured, and loading them with a fallback to the defaults. */
module WebDav {
  import opened Wrappers
  import opened Storage

  datatype WebDavConfig = WebDavConfig(
    url: string,
    username: string,
    password: string,
    enabled: bool,
    remotePath: string)

  /** The settings file, which sits in the data directory beside the library
      file. */
  const ConfigFileName: string := "webdav.json"

  /** The remote directory used until the user sets another one. */
  const DefaultRemotePath: string := "/fish_reader/"

  /** `WebDavConfig::default()`: disabled, no server, no credentials. */
  const DefaultConfig: WebDavConfig := WebDavConfig("", "", "", false, DefaultRemotePath)

  /** Sync may run only when it is switched on and a server URL is set; the
      defaults never qualify. */
  predicate IsConfigured(c: WebDavConfig)
    ensures IsConfigured(c) ==> c != DefaultConfig
  {
    c.enabled && c.url != []
  }

  /** `WebDavConfig::load`: the parsed settings file, or the defaults when the
      file is missing, unreadable or does not parse. Since the defaults are
      not configured, a configured result always comes from a parsed file. */
  function LoadConfig(f: Stored, decode: Bytes -> Option<WebDavConfig>): (c: WebDavConfig)
    ensures c == DefaultConfig || (f.Present? && decode(f.bytes) == Some(c))
    ensures !f.Present? || decode(f.bytes).None? ==> c == DefaultConfig
    ensures f.Present? && decode(f.bytes).Some? ==> c == decode(f.bytes).value
    ensures IsConfigured(c) ==> f.Present? && decode(f.bytes) == Some(c)
    ensures !f.Present? ==> !IsConfigured(c)
  {
    LoadOr(f, decode, DefaultConfig)
  }

  /** Settings saved with an encoder the decoder inverts load back unchanged. */
  lemma LoadSavedConfig(c: WebDavConfig, encode: WebDavConfig -> Bytes, decode: Bytes -> Option<WebDavConfig>)
    requires decode(encode(c)) == Some(c)
    ensures LoadConfig(Present(encode(c)), decode) == c
  {
    LoadSaved(c, encode, decode, DefaultConfig);
  }
}
