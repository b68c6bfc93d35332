/**
 * The best-effort decoder that hydrates prompt variables from query-string
 * parameters (utils/url-params.ts).
 *
 * A parameter value that looks like base64 is taken to be base64(gzip(utf-8
 * text)) and decoded; anything else, and anything that fails to decode, is
 * used as it stands. The browser facilities the decoder relies on (`atob`,
 * `DecompressionStream('gzip')`, `TextDecoder('utf-8')`) are supplied as a
 * `Host` of possibly failing functions, and `window.location.search` as an
 * explicit list of key/value pairs.
 */
module UrlParams {
  import opened Wrappers

  /** One element of a `Uint8Array`. */
  newtype uint8 = x: int | 0 <= x < 256

  /** A query string after `URLSearchParams` has split and unescaped it, in order. */
  type Query = seq<(string, string)>

  /** The library calls of the browser; `None` is a thrown error. */
  datatype Host = Host(
    atob: string -> Option<string>,
    gunzip: seq<uint8> -> Option<seq<uint8>>,
    utf8Decode: seq<uint8> -> Option<string>)

  /** A prompt variable of the app configuration; only its key is read here. */
  datatype PromptVariable = PromptVariable(key: string)

  // ---------------------------------------------------------------------------
  // isValidBase64
  // ---------------------------------------------------------------------------

  /** The base64 alphabet of section 4 of RFC 4648, without the pad character. */
  predicate IsAlphabet(c: char)
  {
    'A' <= c <= 'Z' || 'a' <= c <= 'z' || '0' <= c <= '9' || c == '+' || c == '/'
  }

  /** The tail `={0,2}` of the pattern. */
  predicate IsPadding(s: string)
  {
    s == "" || s == "=" || s == "=="
  }

  /**
   * Whole-string match of the pattern `^[A-Za-z0-9+/]*={0,2}$`. Matching the
   * alphabet run greedily is exact, because `=` is not in the alphabet.
   */
  predicate MatchesShape(s: string)
    decreases |s|
  {
    if s != [] && IsAlphabet(s[0]) then MatchesShape(s[1..]) else IsPadding(s)
  }

  /** The syntactic pre-check: the pattern matches and the length is a multiple of 4. */
  predicate IsValidBase64(s: string)
  {
    MatchesShape(s) && |s| % 4 == 0
  }

  /** Reference reading of the pattern: a run of alphabet characters, then a padding tail. */
  ghost predicate Base64Shaped(s: string)
  {
    exists k :: 0 <= k <= |s| && (forall i :: 0 <= i < k ==> IsAlphabet(s[i])) && IsPadding(s[k..])
  }

  /** The greedy matcher accepts exactly the strings of the pattern. */
  lemma {:induction false} MatchesShapeIsPattern(s: string)
    ensures MatchesShape(s) <==> Base64Shaped(s)
  {
    if s != [] && IsAlphabet(s[0]) {
      MatchesShapeIsPattern(s[1..]);
      if MatchesShape(s) {
        var k :| 0 <= k <= |s[1..]| && (forall i :: 0 <= i < k ==> IsAlphabet(s[1..][i])) && IsPadding(s[1..][k..]);
        assert s[k + 1..] == s[1..][k..];
        assert forall i :: 0 <= i < k + 1 ==> IsAlphabet(s[i]) by {
          forall i | 0 <= i < k + 1 ensures IsAlphabet(s[i]) {
            if i > 0 { assert s[i] == s[1..][i - 1]; }
          }
        }
      }
      if Base64Shaped(s) {
        var k :| 0 <= k <= |s| && (forall i :: 0 <= i < k ==> IsAlphabet(s[i])) && IsPadding(s[k..]);
        if k == 0 {
          assert s[0] == s[k..][0];
        } else {
          assert s[1..][k - 1..] == s[k..];
          assert forall i :: 0 <= i < k - 1 ==> IsAlphabet(s[1..][i]) by {
            forall i | 0 <= i < k - 1 ensures IsAlphabet(s[1..][i]) {
              assert s[1..][i] == s[i + 1];
            }
          }
        }
      }
    } else {
      if MatchesShape(s) {
        assert s[0..] == s;
      }
      if Base64Shaped(s) {
        var k :| 0 <= k <= |s| && (forall i :: 0 <= i < k ==> IsAlphabet(s[i])) && IsPadding(s[k..]);
        if s != [] {
          assert !IsAlphabet(s[0]);
        }
        assert s[k..] == s;
      }
    }
  }

  /**
   * Exact characterisation of the pre-check: a possibly empty run of alphabet
   * characters followed by at most two `=`, with a length that is a multiple of 4.
   */
  lemma IsValidBase64Exactly(s: string)
    ensures IsValidBase64(s) <==> Base64Shaped(s) && |s| % 4 == 0
  {
    MatchesShapeIsPattern(s);
  }

  /** A character that is neither in the alphabet nor `=` makes the pre-check fail. */
  lemma {:induction false} ForeignCharRejected(s: string, i: nat)
    requires i < |s| && !IsAlphabet(s[i]) && s[i] != '='
    ensures !IsValidBase64(s)
    ensures !MatchesShape(s)
  {
    if i > 0 && IsAlphabet(s[0]) {
      ForeignCharRejected(s[1..], i - 1);
    } else {
      assert s[i] != '=';
    }
  }

  /** Padding followed by anything but more padding makes the pre-check fail. */
  lemma {:induction false} DataAfterPadRejected(s: string, i: nat)
    requires i + 1 < |s| && s[i] == '=' && s[i + 1] != '='
    ensures !IsValidBase64(s)
    ensures !MatchesShape(s)
  {
    if i > 0 && IsAlphabet(s[0]) {
      DataAfterPadRejected(s[1..], i - 1);
    } else {
      assert s[i + 1] != '=';
    }
  }

  /** Three `=` in a row make the pre-check fail. */
  lemma {:induction false} ThreePadsRejected(s: string, i: nat)
    requires i + 2 < |s| && s[i] == '=' && s[i + 1] == '=' && s[i + 2] == '='
    ensures !IsValidBase64(s)
    ensures !MatchesShape(s)
  {
    if i > 0 && IsAlphabet(s[0]) {
      ThreePadsRejected(s[1..], i - 1);
    } else {
      assert |s| >= 3;
    }
  }

  /**
   * Any string of alphabet characters whose length is a multiple of 4 passes,
   * the empty string included: plain values can be base64-shaped by chance.
   */
  lemma AlphabetOnlyAccepted(s: string)
    requires forall i :: 0 <= i < |s| ==> IsAlphabet(s[i])
    requires |s| % 4 == 0
    ensures IsValidBase64(s)
  {
    MatchesShapeIsPattern(s);
    assert IsPadding(s[|s|..]);
  }

  // ---------------------------------------------------------------------------
  // decodeBase64AndDecompress
  // ---------------------------------------------------------------------------

  /** A "binary string" as `atob` returns it: every char code is below 256. */
  predicate IsBinaryString(s: string)
  {
    forall i :: 0 <= i < |s| ==> s[i] as int < 256
  }

  /** What storing each char code into a `Uint8Array` yields (ToUint8, modulo 2^8). */
  function CharCodeBytes(bin: string): (bytes: seq<uint8>)
  {
    seq(|bin|, i requires 0 <= i < |bin| => (bin[i] as int % 256) as uint8)
  }

  /** The binary string whose char codes are the given bytes (the input side of `btoa`). */
  function BinaryString(bytes: seq<uint8>): (s: string)
    ensures |s| == |bytes| && IsBinaryString(s)
  {
    seq(|bytes|, i requires 0 <= i < |bytes| => bytes[i] as int as char)
  }

  /** Copying char codes back loses nothing on a binary string. */
  lemma BinaryStringBytes(bytes: seq<uint8>)
    ensures CharCodeBytes(BinaryString(bytes)) == bytes
  {
  }

  /** The decode pipeline: base64 decode, then gzip inflate, then UTF-8 decode. */
  function Pipeline(host: Host, encoded: string): (r: Option<string>)
  {
    match host.atob(encoded)
    case None => None
    case Some(bin) =>
      match host.gunzip(CharCodeBytes(bin))
      case None => None
      case Some(inflated) => host.utf8Decode(inflated)
  }

  /** The pipeline fails exactly when one of its three stages fails. */
  lemma PipelineFailsIffAStageFails(host: Host, encoded: string)
    ensures Pipeline(host, encoded).None? <==>
      host.atob(encoded).None? ||
      host.gunzip(CharCodeBytes(host.atob(encoded).value)).None? ||
      host.utf8Decode(host.gunzip(CharCodeBytes(host.atob(encoded).value)).value).None?
  {
  }

  /**
   * Round trip: when `atob` yields the binary string of a gzip stream that
   * inflates to the UTF-8 encoding of `text`, the pipeline returns `text`.
   */
  lemma PipelineRoundTrip(host: Host, encoded: string, gz: seq<uint8>, utf8: seq<uint8>, text: string)
    requires host.atob(encoded) == Some(BinaryString(gz))
    requires host.gunzip(gz) == Some(utf8)
    requires host.utf8Decode(utf8) == Some(text)
    ensures Pipeline(host, encoded) == Some(text)
  {
    BinaryStringBytes(gz);
  }

  /** The loop that fills a `Uint8Array` with the char codes of the binary string. */
  method CopyCharCodes(bin: string) returns (bytes: array<uint8>)
    ensures fresh(bytes)
    ensures bytes.Length == |bin|
    ensures forall i :: 0 <= i < |bin| ==> bytes[i] as int == bin[i] as int % 256
    ensures IsBinaryString(bin) ==> forall i :: 0 <= i < |bin| ==> bytes[i] as int == bin[i] as int
  {
    bytes := new uint8[|bin|];
    for i := 0 to |bin|
      invariant forall j :: 0 <= j < i ==> bytes[j] as int == bin[j] as int % 256
    {
      bytes[i] := (bin[i] as int % 256) as uint8;
    }
  }

  /** Decodes a base64 gzip-compressed UTF-8 string; `None` is the thrown error. */
  method DecodeBase64AndDecompress(host: Host, encoded: string) returns (r: Option<string>)
    ensures r == Pipeline(host, encoded)
  {
    var decoded := host.atob(encoded);
    if decoded.None? {
      return None;
    }
    var bin := decoded.value;
    var bytes := CopyCharCodes(bin);
    assert bytes[..] == CharCodeBytes(bin);
    var inflated := host.gunzip(bytes[..]);
    if inflated.None? {
      return None;
    }
    r := host.utf8Decode(inflated.value);
  }

  // ---------------------------------------------------------------------------
  // tryDecodeParamValue
  // ---------------------------------------------------------------------------

  /**
   * Best-effort resolution of one parameter value. It never fails: the result
   * is the raw value or what the pipeline produced, and the raw value whenever
   * the value is not base64-shaped or the pipeline fails.
   */
  function TryDecodeParamValue(host: Host, value: string): (r: string)
    ensures r == value || Pipeline(host, value) == Some(r)
    ensures !IsValidBase64(value) ==> r == value
    ensures Pipeline(host, value).None? ==> r == value
  {
    if !IsValidBase64(value) then
      value
    else
      match Pipeline(host, value)
      case Some(text) => text
      case None => value
  }

  /** A value that is not base64-shaped never reaches the host: any two hosts agree on it. */
  lemma PlainValueNeverDecoded(host1: Host, host2: Host, value: string)
    requires !IsValidBase64(value)
    ensures TryDecodeParamValue(host1, value) == TryDecodeParamValue(host2, value) == value
  {
  }

  /** A base64-shaped value whose pipeline succeeds resolves to the decoded text. */
  lemma DecodedWhenPipelineSucceeds(host: Host, value: string, text: string)
    requires IsValidBase64(value) && Pipeline(host, value) == Some(text)
    ensures TryDecodeParamValue(host, value) == text
  {
  }

  /** End to end: an encoded compressed text that has the base64 shape comes back as the text. */
  lemma TryDecodeRoundTrip(host: Host, encoded: string, gz: seq<uint8>, utf8: seq<uint8>, text: string)
    requires IsValidBase64(encoded)
    requires host.atob(encoded) == Some(BinaryString(gz))
    requires host.gunzip(gz) == Some(utf8)
    requires host.utf8Decode(utf8) == Some(text)
    ensures TryDecodeParamValue(host, encoded) == text
  {
    PipelineRoundTrip(host, encoded, gz, utf8, text);
  }

  // ---------------------------------------------------------------------------
  // Query lookup (URLSearchParams)
  // ---------------------------------------------------------------------------

  /** The keys that occur in a query. */
  function QueryKeys(q: Query): (keys: set<string>)
  {
    set p | p in q :: p.0
  }

  /** Extending a prefix of the query by one pair adds that pair's key. */
  lemma QueryKeysPrefix(q: Query, i: nat)
    requires i < |q|
    ensures QueryKeys(q[..i + 1]) == QueryKeys(q[..i]) + {q[i].0}
  {
  }

  /** The value of the first occurrence of `name` (`URLSearchParams.get`). */
  function FirstValue(q: Query, name: string): (r: Option<string>)
    ensures r.None? <==> name !in QueryKeys(q)
    ensures r.Some? ==> exists i :: 0 <= i < |q| && q[i] == (name, r.value) &&
                                    forall j :: 0 <= j < i ==> q[j].0 != name
  {
    if q == [] then
      None
    else if q[0].0 == name then
      assert q[0] == (name, q[0].1);
      Some(q[0].1)
    else
      var r := FirstValue(q[1..], name);
      assert q == [q[0]] + q[1..];
      assert QueryKeys(q) == {q[0].0} + QueryKeys(q[1..]);
      if r.Some? then
        var i :| 0 <= i < |q[1..]| && q[1..][i] == (name, r.value) &&
                 forall j :: 0 <= j < i ==> q[1..][j].0 != name;
        assert q[i + 1] == (name, r.value);
        assert forall j :: 0 <= j < i + 1 ==> q[j].0 != name by {
          forall j | 0 <= j < i + 1 ensures q[j].0 != name {
            if j > 0 { assert q[j] == q[1..][j - 1]; }
          }
        }
        r
      else
        r
  }

  /** The value of the last occurrence of `name`: the one a later overwrite leaves behind. */
  function LastValue(q: Query, name: string): (r: Option<string>)
    ensures r.None? <==> name !in QueryKeys(q)
    ensures r.Some? ==> exists i :: 0 <= i < |q| && q[i] == (name, r.value) &&
                                    forall j :: i < j < |q| ==> q[j].0 != name
  {
    if q == [] then
      None
    else
      var n := |q| - 1;
      QueryKeysPrefix(q, n);
      assert q[..n + 1] == q;
      if q[n].0 == name then
        assert q[n] == (name, q[n].1);
        Some(q[n].1)
      else
        var r := LastValue(q[..n], name);
        if r.Some? then
          var i :| 0 <= i < n && q[..n][i] == (name, r.value) &&
                   forall j :: i < j < n ==> q[..n][j].0 != name;
          assert q[i] == (name, r.value);
          assert forall j :: i < j < |q| ==> q[j].0 != name by {
            forall j | i < j < |q| ensures q[j].0 != name {
              if j < n { assert q[j] == q[..n][j]; }
            }
          }
          r
        else
          r
  }

  /** Extending a prefix of the query by one pair makes that pair the last occurrence of its key. */
  lemma LastValuePrefix(q: Query, i: nat, name: string)
    requires i < |q|
    ensures LastValue(q[..i + 1], name) == if q[i].0 == name then Some(q[i].1) else LastValue(q[..i], name)
  {
    assert q[..i + 1][..i] == q[..i];
  }

  /** Occurrences before the first one of `name` do not matter to `FirstValue`. */
  lemma {:induction false} FirstOccurrenceWins(front: Query, name: string, value: string, rest: Query)
    requires name !in QueryKeys(front)
    ensures FirstValue(front + [(name, value)] + rest, name) == Some(value)
  {
    if front != [] {
      assert (front + [(name, value)] + rest)[1..] == front[1..] + [(name, value)] + rest;
      assert front[0] in front;
      assert QueryKeys(front[1..]) <= QueryKeys(front) by {
        forall p | p in front[1..] ensures p in front { }
      }
      FirstOccurrenceWins(front[1..], name, value, rest);
    }
  }

  /** Occurrences after the last one of `name` do not matter to `LastValue`. */
  lemma {:induction false} LastOccurrenceWins(front: Query, name: string, value: string, rest: Query)
    requires name !in QueryKeys(rest)
    ensures LastValue(front + [(name, value)] + rest, name) == Some(value)
  {
    var q := front + [(name, value)] + rest;
    if rest != [] {
      var n := |rest| - 1;
      assert q[..|q| - 1] == front + [(name, value)] + rest[..n];
      assert q[|q| - 1] == rest[n];
      assert rest[n] in rest;
      assert QueryKeys(rest[..n]) <= QueryKeys(rest) by {
        forall p | p in rest[..n] ensures p in rest { }
      }
      LastOccurrenceWins(front, name, value, rest[..n]);
    }
  }

  // ---------------------------------------------------------------------------
  // getUrlParam and parseUrlParams
  // ---------------------------------------------------------------------------

  /**
   * The first value of `paramName` in the query, where no window, an absent
   * name and an empty first value all read as `undefined` (`None`).
   */
  function GetUrlParam(window: Option<Query>, paramName: string): (r: Option<string>)
    ensures window.None? ==> r.None?
    ensures window.Some? && paramName !in QueryKeys(window.value) ==> r.None?
    ensures window.Some? && FirstValue(window.value, paramName) == Some("") ==> r.None?
    ensures r.Some? ==> window.Some? && r == FirstValue(window.value, paramName) && r.value != ""
    ensures window.Some? && FirstValue(window.value, paramName).Some? ==>
              (FirstValue(window.value, paramName).value != "" ==> r == FirstValue(window.value, paramName))
  {
    match window
    case None => None
    case Some(q) =>
      match FirstValue(q, paramName)
      case Some(v) => if v == "" then None else Some(v)
      case None => None
  }

  /** The permitted keys: the keys of the prompt variables. */
  function ValidKeys(promptVariables: seq<PromptVariable>): (keys: set<string>)
  {
    set v | v in promptVariables :: v.key
  }

  /** The one key whose write to a plain `{}` reaches the accessor inherited from `Object.prototype`. */
  const ProtoKey: string := "__proto__"

  /**
   * The assignment `record[key] = value` on a plain object, for a string value.
   * Writing `__proto__` runs the inherited setter, which ignores a value that is
   * not an object and creates no own key; any other key is created or overwritten.
   */
  function StoreProperty(record: map<string, string>, key: string, value: string): (r: map<string, string>)
    ensures r.Keys == if key == ProtoKey then record.Keys else record.Keys + {key}
    ensures key != ProtoKey ==> r[key] == value
    ensures forall k :: k in record && k != key ==> r[k] == record[k]
  {
    if key == ProtoKey then record else record[key := value]
  }

  /**
   * Collects the resolved values of the permitted query parameters. Without a
   * window the result is empty; otherwise its keys are exactly the permitted
   * keys that occur in the query, except `__proto__`, which the plain result
   * object never holds as its own key, and each holds the resolution of the
   * key's last occurrence.
   */
  method ParseUrlParams(host: Host, promptVariables: seq<PromptVariable>, window: Option<Query>)
    returns (result: map<string, string>)
    ensures window.None? ==> result == map[]
    ensures window.Some? ==> result.Keys == ValidKeys(promptVariables) * QueryKeys(window.value) - {ProtoKey}
    ensures window.Some? ==> forall k :: k in result ==>
              result[k] == TryDecodeParamValue(host, LastValue(window.value, k).value)
  {
    result := map[];
    if window.None? {
      return;
    }
    var q := window.value;
    var validKeys := ValidKeys(promptVariables);
    for i := 0 to |q|
      invariant result.Keys == validKeys * QueryKeys(q[..i]) - {ProtoKey}
      invariant forall k :: k in result ==> result[k] == TryDecodeParamValue(host, LastValue(q[..i], k).value)
    {
      var (key, value) := q[i];
      QueryKeysPrefix(q, i);
      forall k {
        LastValuePrefix(q, i, k);
      }
      if key !in validKeys {
        continue;
      }
      result := StoreProperty(result, key, TryDecodeParamValue(host, value));
    }
    assert q[..|q|] == q;
  }
}
