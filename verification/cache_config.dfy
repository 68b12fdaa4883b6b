/** Cache configuration of src/cache.rs. Every environment variable the
    functions read is a parameter: `None` when it is unset. */
module CacheConfigs {
  import opened Wrappers
  import opened Strings

  /** `usize` on a 64-bit target. */
  const USIZE_MAX: int := 0xFFFF_FFFF_FFFF_FFFF
  type usize = x: int | 0 <= x <= USIZE_MAX

  const MIB: usize := 1024 * 1024

  datatype CacheConfig = CacheConfig(
    maxEntries: usize,
    maxMemoryBytes: usize,
    useLruEviction: bool,
    validateFileMtime: bool,
    enableCompression: bool)

  /** `CacheConfig::default`. */
  const DefaultConfig := CacheConfig(1000, 100 * MIB, true, true, false)

  // ---------------------------------------------------------------------------
  // RUSTOWL_CACHE and RUSTOWL_CACHE_DIR.

  /** The trimmed, lowercased value is one of the two words that switch a flag off. */
  predicate IsOffWord(v: string) {
    Normalize(v) == "false" || Normalize(v) == "0"
  }

  /** `is_cache`: the cache is on unless the variable names an off word. */
  function IsCache(env: Option<string>): (on: bool)
    ensures env.None? ==> on
    ensures env.Some? ==> (on <==> !IsOffWord(env.value))
  {
    !(env.Some? && (var v := Normalize(env.value); v == "false" || v == "0"))
  }

  /** Case and surrounding whitespace do not change the verdict. */
  lemma IsCacheInvariant(pre: string, v: string, post: string)
    requires AllWhitespace(pre) && AllWhitespace(post)
    ensures IsCache(Some(pre + v + post)) == IsCache(Some(v))
    ensures IsCache(Some(ToAsciiLowercase(v))) == IsCache(Some(v))
  {
    NormalizeInvariant(pre, v, post);
  }

  lemma NormalizePlain(s: string)
    requires |s| > 0 && !IsWhitespace(s[0]) && !IsWhitespace(s[|s| - 1])
    requires forall i :: 0 <= i < |s| ==> !('A' <= s[i] <= 'Z')
    ensures Normalize(s) == s
  {
    TrimUnpadded(s);
  }

  /** An off word padded with whitespace still turns the cache off. */
  lemma IsCacheOffPadded(pre: string, word: string, post: string, padded: string)
    requires AllWhitespace(pre) && AllWhitespace(post) && padded == pre + word + post
    requires IsOffWord(word)
    ensures !IsCache(Some(padded))
  {
    NormalizeInvariant(pre, word, post);
  }

  /** "false" and "0", written exactly so, are off words. */
  lemma PlainOffWord(w: string)
    requires w == "false" || w == "0"
    ensures IsOffWord(w)
  {
    NormalizePlain(w);
  }

  lemma TwoSpaces(sp: string)
    requires sp == "  "
    ensures AllWhitespace(sp)
  {
    assert |sp| == 2 && sp[0] == ' ' && sp[1] == ' ';
    forall i | 0 <= i < |sp| ensures IsWhitespace(sp[i]) {
      assert i == 0 || i == 1;
    }
  }

  /** "  false  " turns the cache off. */
  lemma IsCachePaddedExample(v: string)
    requires v == "  " + "false" + "  "
    ensures !IsCache(Some(v))
  {
    PaddedOff(v, "false", "  ");
  }

  /** A two-space padding around "false" still turns the cache off. */
  lemma PaddedOff(v: string, w: string, sp: string)
    requires w == "false" && sp == "  " && v == sp + w + sp
    ensures !IsCache(Some(v))
  {
    PlainOffWord(w);
    TwoSpaces(sp);
    IsCacheOffPadded(sp, w, sp, v);
  }

  lemma IsCacheZeroExample(v: string)
    requires v == "0"
    ensures !IsCache(Some(v))
  {
    PlainOffWord(v);
  }

  /** A word without surrounding whitespace normalises to its lowercase form. */
  lemma NormalizeUnpadded(s: string, lower: string)
    requires |s| > 0 && !IsWhitespace(s[0]) && !IsWhitespace(s[|s| - 1])
    requires lower == ToAsciiLowercase(s)
    ensures Normalize(s) == lower
  {
    TrimUnpadded(s);
  }

  lemma IsCacheUpperExample(v: string)
    requires v == "FALSE"
    ensures !IsCache(Some(v))
  {
    NormalizeUnpadded(v, "false");
  }

  lemma IsCacheEmptyExample(v: string)
    requires v == ""
    ensures IsCache(Some(v))
  {
    assert Trim(v) == v;
  }

  /** Any word other than "false" and "0" leaves the cache on, "OFF" included. */
  lemma IsCacheOffWordExample(v: string)
    requires v == "OFF"
    ensures IsCache(Some(v))
  {
    NormalizeUnpadded(v, "off");
  }

  /** `get_cache_path`: the trimmed value, unless that is empty. */
  function GetCachePath(env: Option<string>): (path: Option<string>)
    ensures path.Some? <==> env.Some? && !AllWhitespace(env.value)
    ensures path.Some? ==> |path.value| > 0 && !IsWhitespace(path.value[0]) && !IsWhitespace(path.value[|path.value| - 1])
    ensures path.Some? ==> exists i, j ::
      && 0 <= i <= j <= |env.value| && path.value == env.value[i..j]
      && AllWhitespace(env.value[..i]) && AllWhitespace(env.value[j..])
  {
    if env.None? then None
    else
      var t := Trim(env.value);
      TrimEmptyIffBlank(env.value);
      if |t| == 0 then None else Some(t)
  }

  lemma TrimEmptyIffBlank(s: string)
    ensures |Trim(s)| == 0 <==> AllWhitespace(s)
  {
    if AllWhitespace(s) {
      TrimPadded(s, [], []);
      assert s + [] + [] == s;
    }
  }

  /** Surrounding whitespace never reaches the path. */
  lemma GetCachePathPadded(pre: string, v: string, post: string)
    requires AllWhitespace(pre) && AllWhitespace(post)
    ensures GetCachePath(Some(pre + v + post)) == GetCachePath(Some(v))
  {
    TrimPadded(pre, v, post);
  }

  lemma GetCachePathBlankExample()
    ensures GetCachePath(None) == None
    ensures GetCachePath(Some("   ")) == None
  {
    assert AllWhitespace("   ");
  }

  lemma GetCachePathPaddedExample()
    ensures GetCachePath(Some(" \t/tmp/cache\n")) == Some("/tmp/cache")
  {
    TrimPathExample();
  }

  lemma TrimPathExample()
    ensures Trim(" \t/tmp/cache\n") == "/tmp/cache"
  {
    TrimBetween(" \t", "/tmp/cache", "\n", " \t/tmp/cache\n");
  }

  // ---------------------------------------------------------------------------
  // `str::parse::<usize>`.

  predicate IsDigit(c: char) { '0' <= c <= '9' }

  function DigitValue(c: char): nat
    requires IsDigit(c)
  {
    c as int - '0' as int
  }

  function DigitChar(d: nat): char
    requires d < 10
  {
    ('0' as int + d) as char
  }

  /** The value of a string of decimal digits, most significant first. */
  function DecimalValue(ds: string): nat
    requires forall i :: 0 <= i < |ds| ==> IsDigit(ds[i])
  {
    if |ds| == 0 then 0 else DecimalValue(ds[..|ds| - 1]) * 10 + DigitValue(ds[|ds| - 1])
  }

  /** The canonical decimal representation of `n`: no sign, no leading zero. */
  function ToDecimal(n: nat): (s: string)
    ensures |s| > 0
    ensures forall i :: 0 <= i < |s| ==> IsDigit(s[i])
    ensures |s| > 1 ==> s[0] != '0'
  {
    if n < 10 then [DigitChar(n)] else ToDecimal(n / 10) + [DigitChar(n % 10)]
  }

  lemma {:induction false} ToDecimalValue(n: nat)
    ensures DecimalValue(ToDecimal(n)) == n
  {
    if n >= 10 {
      var s := ToDecimal(n);
      assert s[..|s| - 1] == ToDecimal(n / 10);
      ToDecimalValue(n / 10);
    }
  }

  /** `usize::from_str`: an optional '+', then at least one ASCII digit, the
      value not above `usize::MAX`; no whitespace is skipped. */
  function ParseUsize(s: string): (r: Option<usize>)
    ensures r.Some? ==> |s| > 0
    ensures r.Some? ==>
      var ds := if s[0] == '+' then s[1..] else s;
      && |ds| > 0
      && (forall i :: 0 <= i < |ds| ==> IsDigit(ds[i]))
      && r.value == DecimalValue(ds)
    ensures |s| > 0 ==>
      var ds := if s[0] == '+' then s[1..] else s;
      |ds| > 0 && (forall i :: 0 <= i < |ds| ==> IsDigit(ds[i])) ==>
        r == if DecimalValue(ds) <= USIZE_MAX then Some(DecimalValue(ds) as usize) else None
    ensures (exists i :: 0 <= i < |s| && IsWhitespace(s[i])) ==> r.None?
  {
    if |s| == 0 || s == "+" then None
    else
      var ds := if s[0] == '+' then s[1..] else s;
      if forall i :: 0 <= i < |ds| ==> IsDigit(ds[i]) then
        var v := DecimalValue(ds);
        if v <= USIZE_MAX then Some(v) else None
      else None
  }

  /** Leading zeros are accepted. */
  lemma ParseUsizeLeadingZerosExample(s: string)
    requires s == "007"
    ensures ParseUsize(s) == Some(7)
  {
    assert s[0] == '0' && s[1] == '0' && s[2] == '7';
    var s1, s2 := s[..1], s[..2];
    assert s1[..0] == [] && s2[..1] == s1 && s[..2] == s2;
    assert DecimalValue(s1) == 0;
    assert DecimalValue(s2) == 0;
    assert forall i :: 0 <= i < |s| ==> IsDigit(s[i]);
    assert s[..|s| - 1] == s2;
    assert DecimalValue(s) == 7;
  }

  /** Parsing reads back every `usize` in its decimal form, with or without '+'. */
  lemma ParseUsizeRoundTrip(n: usize)
    ensures ParseUsize(ToDecimal(n)) == Some(n)
    ensures ParseUsize("+" + ToDecimal(n)) == Some(n)
  {
    ToDecimalValue(n);
    assert ("+" + ToDecimal(n))[1..] == ToDecimal(n);
  }

  /** Values that do not fit are rejected rather than truncated. */
  lemma ParseUsizeOverflow(n: nat)
    requires n > USIZE_MAX
    ensures ParseUsize(ToDecimal(n)) == None
  {
    ToDecimalValue(n);
  }

  function SaturatingMul(a: usize, b: usize): (r: usize)
    ensures a * b <= USIZE_MAX ==> r == a * b
    ensures a * b > USIZE_MAX ==> r == USIZE_MAX
  {
    if a * b > USIZE_MAX then USIZE_MAX else a * b
  }

  // ---------------------------------------------------------------------------
  // get_cache_config.

  /** The four variables `get_cache_config` reads. */
  datatype CacheEnv = CacheEnv(
    maxEntries: Option<string>,      // RUSTOWL_CACHE_MAX_ENTRIES
    maxMemoryMb: Option<string>,     // RUSTOWL_CACHE_MAX_MEMORY_MB
    eviction: Option<string>,        // RUSTOWL_CACHE_EVICTION
    validateFiles: Option<string>)   // RUSTOWL_CACHE_VALIDATE_FILES

  /** The value a variable parses to, if it is set and parses. */
  function ParsedVar(v: Option<string>): Option<usize> {
    if v.Some? then ParseUsize(v.value) else None
  }

  /** `get_cache_config`: the defaults, each overridden by its own variable. */
  function GetCacheConfig(env: CacheEnv): (c: CacheConfig)
    ensures ParsedVar(env.maxEntries).None? ==> c.maxEntries == DefaultConfig.maxEntries
    ensures ParsedVar(env.maxEntries).Some? ==> c.maxEntries == ParsedVar(env.maxEntries).value
    ensures ParsedVar(env.maxMemoryMb).None? ==> c.maxMemoryBytes == DefaultConfig.maxMemoryBytes
    ensures ParsedVar(env.maxMemoryMb).Some? ==>
      var mb := ParsedVar(env.maxMemoryMb).value;
      c.maxMemoryBytes == if mb * MIB <= USIZE_MAX then mb * MIB else USIZE_MAX
    ensures env.eviction.Some? && Normalize(env.eviction.value) == "lru" ==> c.useLruEviction
    ensures env.eviction.Some? && Normalize(env.eviction.value) == "fifo" ==> !c.useLruEviction
    ensures (env.eviction.None? || Normalize(env.eviction.value) !in {"lru", "fifo"}) ==>
      c.useLruEviction == DefaultConfig.useLruEviction
    ensures env.validateFiles.None? ==> c.validateFileMtime == DefaultConfig.validateFileMtime
    ensures env.validateFiles.Some? ==> (c.validateFileMtime <==> !IsOffWord(env.validateFiles.value))
    ensures c.enableCompression == DefaultConfig.enableCompression
  {
    CacheConfig(
      MaxEntriesSetting(env.maxEntries),
      MaxMemorySetting(env.maxMemoryMb),
      EvictionSetting(env.eviction),
      ValidationSetting(env.validateFiles),
      DefaultConfig.enableCompression)
  }

  // Each override in `get_cache_config` assigns one field, so the configuration
  // is built field by field; the helpers below are those assignments.

  function MaxEntriesSetting(v: Option<string>): usize {
    if v.Some? && ParseUsize(v.value).Some? then ParseUsize(v.value).value else DefaultConfig.maxEntries
  }

  function MaxMemorySetting(v: Option<string>): usize {
    if v.Some? && ParseUsize(v.value).Some? then SaturatingMul(ParseUsize(v.value).value, MIB)
    else DefaultConfig.maxMemoryBytes
  }

  function EvictionSetting(v: Option<string>): bool {
    if v.Some? then
      var policy := Normalize(v.value);
      if policy == "lru" then true
      else if policy == "fifo" then false
      else DefaultConfig.useLruEviction
    else DefaultConfig.useLruEviction
  }

  function ValidationSetting(v: Option<string>): bool {
    if v.Some? then
      var w := Normalize(v.value);
      !(w == "false" || w == "0")
    else DefaultConfig.validateFileMtime
  }

  /** With nothing set the configuration is the default one. */
  lemma GetCacheConfigUnset()
    ensures GetCacheConfig(CacheEnv(None, None, None, None)) == DefaultConfig
    ensures DefaultConfig.maxEntries == 1000 && DefaultConfig.maxMemoryBytes == 104857600
    ensures DefaultConfig.useLruEviction && DefaultConfig.validateFileMtime && !DefaultConfig.enableCompression
  {
  }

  /** Each field depends on its own variable only. */
  lemma GetCacheConfigFieldsIndependent(a: CacheEnv, b: CacheEnv)
    ensures a.maxEntries == b.maxEntries ==> GetCacheConfig(a).maxEntries == GetCacheConfig(b).maxEntries
    ensures a.maxMemoryMb == b.maxMemoryMb ==> GetCacheConfig(a).maxMemoryBytes == GetCacheConfig(b).maxMemoryBytes
    ensures a.eviction == b.eviction ==> GetCacheConfig(a).useLruEviction == GetCacheConfig(b).useLruEviction
    ensures a.validateFiles == b.validateFiles ==> GetCacheConfig(a).validateFileMtime == GetCacheConfig(b).validateFileMtime
  {
  }

  /** Any `usize` written in decimal sets `max_entries`. */
  lemma GetCacheConfigMaxEntries(n: usize, e: CacheEnv)
    ensures GetCacheConfig(e.(maxEntries := Some(ToDecimal(n)))).maxEntries == n
  {
    ParseUsizeRoundTrip(n);
  }

  /** A memory size in MB is stored in bytes, saturating at `usize::MAX`. */
  lemma GetCacheConfigMaxMemory(n: usize, e: CacheEnv)
    ensures GetCacheConfig(e.(maxMemoryMb := Some(ToDecimal(n)))).maxMemoryBytes == SaturatingMul(n, MIB)
  {
    ParseUsizeRoundTrip(n);
  }

  lemma GetCacheConfigMaxMemorySaturates(e: CacheEnv)
    ensures GetCacheConfig(e.(maxMemoryMb := Some(ToDecimal(USIZE_MAX)))).maxMemoryBytes == USIZE_MAX
  {
    GetCacheConfigMaxMemory(USIZE_MAX, e);
    assert USIZE_MAX * MIB > USIZE_MAX;
  }

  /** Numbers are not trimmed: " 200 " leaves the default in place. */
  lemma GetCacheConfigPaddedNumber(e: CacheEnv)
    ensures GetCacheConfig(e.(maxMemoryMb := Some(" 200 "))).maxMemoryBytes == DefaultConfig.maxMemoryBytes
    ensures GetCacheConfig(e.(maxEntries := Some("  777 "))).maxEntries == DefaultConfig.maxEntries
  {
    assert IsWhitespace(" 200 "[0]);
    assert IsWhitespace("  777 "[0]);
  }

  /** The eviction policy and the validation flag ignore case and surrounding whitespace. */
  lemma GetCacheConfigWordsInvariant(e: CacheEnv, pre: string, v: string, post: string)
    requires AllWhitespace(pre) && AllWhitespace(post)
    ensures GetCacheConfig(e.(eviction := Some(pre + v + post))).useLruEviction ==
      GetCacheConfig(e.(eviction := Some(ToAsciiLowercase(v)))).useLruEviction
    ensures GetCacheConfig(e.(validateFiles := Some(pre + v + post))).validateFileMtime ==
      GetCacheConfig(e.(validateFiles := Some(ToAsciiLowercase(v)))).validateFileMtime
  {
    NormalizeInvariant(pre, v, post);
  }
}
