/** Target ids of supervised sessions and the file names of their records
    (src/agent_keepalive/paths.py, src/agent_keepalive/claude_supervisor.py:45-50). */
module TargetPaths {
  import opened ClaudeProvider

  /** `str.isalnum` on ASCII characters, plus the three characters kept by the code. */
  predicate KeptInFileName(c: char) {
    || '0' <= c <= '9' || 'a' <= c <= 'z' || 'A' <= c <= 'Z'
    || c == '.' || c == '_' || c == '-'
  }

  function SafeTargetId(value: string): (r: string)
    ensures |r| == |value|
    ensures forall i | 0 <= i < |r| :: r[i] == if KeptInFileName(value[i]) then value[i] else '_'
  {
    seq(|value|, i requires 0 <= i < |value| => if KeptInFileName(value[i]) then value[i] else '_')
  }

  function FileName(provider: string, targetId: string): string {
    provider + "-" + SafeTargetId(targetId) + ".json"
  }

  /** The hexadecimal form of a SHA-256 digest. */
  predicate HexDigest(s: string) {
    |s| == 64 && AllHex(s)
  }

  function SessionTargetId(host: Host, root: string, shortId: string): string {
    shortId + "@" + host.fingerprint(root)
  }

  lemma FileNameDeterminesSafeId(provider: string, a: string, b: string)
    requires FileName(provider, a) == FileName(provider, b)
    ensures SafeTargetId(a) == SafeTargetId(b)
  {
    var fa, fb := FileName(provider, a), FileName(provider, b);
    assert |SafeTargetId(a)| == |fa| - |provider| - 6 == |SafeTargetId(b)|;
    var n := |provider| + 1;
    assert SafeTargetId(a) == fa[n..n + |SafeTargetId(a)|];
    assert SafeTargetId(b) == fb[n..n + |SafeTargetId(b)|];
  }

  lemma SafeSessionTarget(shortId: string, digest: string)
    requires Hex8(shortId) && HexDigest(digest)
    ensures SafeTargetId(shortId + "@" + digest) == shortId + "_" + digest
  {
  }

  /** The record file of a session is named after its short id and the digest of its root. */
  lemma SessionFileIs(host: Host, root: string, id: string)
    requires Hex8(id) && HexDigest(host.fingerprint(root))
    ensures FileName("claude", SessionTargetId(host, root, id))
         == "claude-" + id + "_" + host.fingerprint(root) + ".json"
  {
    var digest := host.fingerprint(root);
    SafeSessionTarget(id, digest);
    assert "claude" + "-" == "claude-";
    assert "claude-" + (id + "_" + digest) + ".json" == "claude-" + id + "_" + digest + ".json";
  }

  /** Two supervised sessions share a record file only if they are the same session of the same
      root: replacing `@` by `_` merges no two session targets. */
  lemma SessionFilesAreDistinct(host: Host, provider: string, root1: string, id1: string, root2: string, id2: string)
    requires Hex8(id1) && Hex8(id2)
    requires HexDigest(host.fingerprint(root1)) && HexDigest(host.fingerprint(root2))
    requires FileName(provider, SessionTargetId(host, root1, id1))
          == FileName(provider, SessionTargetId(host, root2, id2))
    ensures id1 == id2 && host.fingerprint(root1) == host.fingerprint(root2)
  {
    var d1, d2 := host.fingerprint(root1), host.fingerprint(root2);
    FileNameDeterminesSafeId(provider, SessionTargetId(host, root1, id1), SessionTargetId(host, root2, id2));
    SafeSessionTarget(id1, d1);
    SafeSessionTarget(id2, d2);
    var s := id1 + "_" + d1;
    assert s == id2 + "_" + d2;
    assert id1 == s[..8] && id2 == s[..8] && d1 == s[9..] && d2 == s[9..];
  }

  /** The file of a supervised session is never that of a target with another length, in
      particular not that of the supervisor itself nor of a session watched on its own. */
  lemma SessionFileIsNotOther(host: Host, provider: string, root: string, id: string, other: string)
    requires Hex8(id) && HexDigest(host.fingerprint(root))
    requires |other| != 73
    ensures FileName(provider, SessionTargetId(host, root, id)) != FileName(provider, other)
  {
    if FileName(provider, SessionTargetId(host, root, id)) == FileName(provider, other) {
      FileNameDeterminesSafeId(provider, SessionTargetId(host, root, id), other);
    }
  }
}
