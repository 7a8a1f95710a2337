/**
  The routine that persists a verdict: it reads the policy file, edits the parsed tree and prints it.
 */
module PolicyPersist {
  import opened Base
  import opened JsonTree
  import opened JsonSize
  import opened PolicyFile
  import opened PolicyReload
  import BlockedFile
  import Daemon
  import JsonParser
  import JsonPrinter

  /** `config_persist_blacklist_ip`. */
  method Persist(isIp: seq<byte> -> bool, file: Option<seq<byte>>, ip: seq<byte>, writable: bool)
    returns (r: Outcome)
    requires isIp(ip) ==> 0 !in ip && |ip| < IP_LEN
    requires Reprintable(file)
    ensures r == Persisted(isIp, file, ip, writable)
  {
    if ip == [] {
      return Outcome(false, None);
    }
    if !isIp(ip) {
      return Outcome(true, None);
    }
    if file.None? || |file.value| > FILE_MAX {
      return Outcome(false, None);
    }
    var root, _ := JsonParser.ParseText(CStr(file.value));
    if root.None? {
      return Outcome(false, None);
    }
    var t := EditTree(root.value, ip);
    if t.None? {
      return Outcome(true, None);
    }
    CStrLength(file.value);
    WrittenParses(CStr(file.value), ip);
    WrittenFits(CStr(file.value), ip);
    var out := JsonPrinter.Print(t.value, true);
    if out.None? || !writable {
      return Outcome(false, None);
    }
    return Outcome(true, Some(out.value + [NEWLINE]));
  }

  /** The routine on files computes what the daemon takes it for. */
  method PersistVerdict(host: Daemon.Host, file: Option<seq<byte>>, ip: string, savable: bool)
    returns (next: Option<seq<byte>>)
    requires Persists(host) && BlockedFile.Sound(host.isIp) && Reprintable(file)
    ensures next == host.persist(file, ip, savable) && Reprintable(next)
  {
    if host.isIp(ip) {
      AddressOctets(host.isIp, ip);
    }
    SavedIsReprintable(Answer(host, ip), file, Octets(ip), savable);
    var done := Persist(Answer(host, ip), file, Octets(ip), savable);
    next := if done.rewritten.Some? then done.rewritten else file;
  }
}
