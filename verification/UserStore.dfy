/** The user record files of src/user_data.c: up to 32 variant files per sanitized name, meant to act
  * as a table keyed by user name and address. The directory is a map from file names, without root
  * and extension, to records. */
module UserStore {
  import opened Bytes
  import opened Options
  import opened Searching

  const VARIANT_LIMIT := 32
  const MAILBOX_LIMIT := 32
  const FLAG_HISTORY_LIMIT := 16

  /** A user name or an address as its fixed buffer holds it: at most 255 and 63 bytes. */
  type UserName = s: CString | |s| <= 255
  type Ip = s: CString | |s| <= 63

  type FileName = seq<Byte>

  /** The fields the file logic looks at or changes; body stands for all others. */
  datatype Record = Record(
    username: UserName,
    lastIp: Ip,
    hasPassword: bool,
    ipWide: bool,
    hasUserTheme: Byte,
    userIsBold: Byte,
    mailboxCount: nat,
    flagHistoryCount: nat,
    body: nat)

  type Directory = map<FileName, Record>

  // ---- File names ----

  predicate IsSpace(b: Byte) {
    b == 32 || 9 <= b <= 13
  }

  predicate IsAlnum(b: Byte) {
    48 <= b <= 57 || 65 <= b <= 90 || 97 <= b <= 122
  }

  /** The bytes of the file name that one byte of the user name contributes: none or one. */
  function SanitizeByte(b: Byte): (r: seq<Byte>) {
    if 65 <= b <= 90 then [b + 32]
    else if IsAlnum(b) || b == 45 || b == 95 || b == 46 then [b]
    else if IsSpace(b) then []
    else [95]
  }

  function SanitizeAll(name: seq<Byte>): (r: FileName) {
    if name == [] then [] else SanitizeAll(name[..|name| - 1]) + SanitizeByte(name[|name| - 1])
  }

  const DEFAULT_NAME: FileName := [117, 115, 101, 114]

  /** user_data_sanitize_username on a non-empty name. */
  function Sanitize(name: seq<Byte>): (r: FileName) {
    if SanitizeAll(name) == [] then DEFAULT_NAME else SanitizeAll(name)
  }

  /** user_data_build_variant_name: the base itself, then base-1 to base-31. */
  function Variant(base: FileName, idx: nat): (r: FileName) {
    if idx == 0 then base
    else base + [45] + (if idx < 10 then [48 + idx] else [48 + idx / 10 % 10, 48 + idx % 10])
  }

  // ---- Choosing a file ----

  /** A record that is found by the name alone: protected by a password or valid at every address. */
  predicate Claims(r: Record) {
    r.hasPassword || r.ipWide
  }

  /** The file names tried for one user, in order. */
  type Naming = nat -> FileName

  function Variants(base: FileName): Naming {
    (i: nat) => Variant(base, i)
  }

  /** Which of these files hold a record of this user valid at every address, hold a record of this
    * user and address, or do not exist. */
  function WideVariants(dir: Directory, names: Naming, username: UserName): nat -> bool {
    (i: nat) => names(i) in dir && dir[names(i)].username == username && dir[names(i)].ipWide
  }

  function MatchingVariants(dir: Directory, names: Naming, username: UserName, ip: Ip): nat -> bool {
    (i: nat) => names(i) in dir && HasKey(dir[names(i)], username, ip)
  }

  predicate HasKey(r: Record, username: UserName, ip: Ip) {
    r.username == username && r.lastIp == ip
  }

  function FreeVariants(dir: Directory, names: Naming): nat -> bool {
    (i: nat) => names(i) !in dir
  }

  /** r is the lowest index with the property among the first n, or VARIANT_LIMIT if there is none yet. */
  ghost predicate LowestSoFar(p: nat -> bool, r: nat, n: nat) {
    if r < VARIANT_LIMIT then r < n && p(r) && forall j :: 0 <= j < r ==> !p(j)
    else r == VARIANT_LIMIT && forall j :: 0 <= j < n ==> !p(j)
  }

  function NthPath(names: Naming, idx: nat): (path: Option<FileName>) {
    if idx < VARIANT_LIMIT then Some(names(idx)) else None
  }

  /** user_data_path_for: a claim on the name wins; then a record valid at every address, then the
    * record of this address, and last, when creating, the first free variant. */
  function ChoosePath(dir: Directory, username: UserName, ip: Ip, create: bool): (path: Option<FileName>) {
    var base := Sanitize(username);
    if username == [] then None
    else if base in dir && Claims(dir[base]) then Some(base)
    else if ip == [] then Some(base)
    else ChooseVariant(dir, Variants(base), username, ip, create)
  }

  function ChooseVariant(dir: Directory, names: Naming, username: UserName, ip: Ip, create: bool)
    : (path: Option<FileName>)
  {
    var wide := Lowest(WideVariants(dir, names, username), VARIANT_LIMIT);
    var matched := Lowest(MatchingVariants(dir, names, username, ip), VARIANT_LIMIT);
    if wide < VARIANT_LIMIT then NthPath(names, wide)
    else if matched < VARIANT_LIMIT then NthPath(names, matched)
    else if create then NthPath(names, Lowest(FreeVariants(dir, names), VARIANT_LIMIT))
    else None
  }

  // ---- Reading and writing records ----

  /** user_data_normalize_record */
  function Normalize(r: Record, username: UserName): (n: Record) {
    r.(mailboxCount := if r.mailboxCount > MAILBOX_LIMIT then MAILBOX_LIMIT else r.mailboxCount,
       flagHistoryCount := if r.flagHistoryCount > FLAG_HISTORY_LIMIT then FLAG_HISTORY_LIMIT else r.flagHistoryCount,
       hasUserTheme := if r.hasUserTheme != 0 then 1 else 0,
       userIsBold := if r.userIsBold != 0 then 1 else 0,
       username := if username != [] then username else r.username)
  }

  /** The record as a save for this address puts it on disk. */
  function OnDisk(r: Record, ip: Ip): (n: Record) {
    var n := Normalize(r, r.username);
    if ip != [] then n.(lastIp := ip) else n
  }

  function LoadFrom(dir: Directory, username: UserName, ip: Ip): (r: Option<Record>) {
    var path := ChoosePath(dir, username, ip, false);
    if path.None? || path.value !in dir then None
    else
      var n := Normalize(dir[path.value], username);
      Some(if ip != [] then n.(lastIp := ip) else n)
  }

  /** The files user_data_remove_ip_variants deletes among the first n variants. */
  function StaleVariants(dir: Directory, username: UserName, keep: FileName, n: nat): (r: set<FileName>) {
    if n == 0 then {}
    else
      var name := Variant(Sanitize(username), n - 1);
      StaleVariants(dir, username, keep, n - 1) +
      (if name != keep && name in dir && dir[name].username == username then {name} else {})
  }

  function EffectiveIp(r: Record, ip: Ip): Ip {
    if ip != [] then ip else r.lastIp
  }

  function SavePath(dir: Directory, record: Record, ip: Ip): (path: Option<FileName>) {
    if Claims(record) then (if record.username == [] then None else Some(Sanitize(record.username)))
    else ChoosePath(dir, record.username, EffectiveIp(record, ip), true)
  }

  /** How the file operations of a save go: they fail before the record is in place, or only the profile
    * picture that follows it cannot be stored, or all succeed. */
  datatype Disk = NotWritten | PictureLost | Stored

  /** The save puts the record in place, whatever it reports. */
  predicate Reaches(dir: Directory, record: Record, ip: Ip, disk: Disk) {
    SavePath(dir, record, ip).Some? && !disk.NotWritten?
  }

  function SaveTo(dir: Directory, record: Record, ip: Ip, disk: Disk): (r: (Directory, bool)) {
    var path := SavePath(dir, record, ip);
    if path.None? || disk.NotWritten? then (dir, false)
    else
      var dir' := dir[path.value := OnDisk(record, EffectiveIp(record, ip))];
      if disk.PictureLost? then (dir', false)
      else if record.ipWide then (dir' - StaleVariants(dir', record.username, path.value, VARIANT_LIMIT), true)
      else (dir', true)
  }

  class Store {
    var dir: Directory

    constructor ()
      ensures dir == map[]
    {
      dir := map[];
    }

    /** user_data_path_for */
    method PathFor(username: UserName, ip: Ip, create: bool) returns (path: Option<FileName>)
      ensures path == ChoosePath(dir, username, ip, create)
    {
      if username == [] {
        return None;
      }
      var base := SanitizeName(username);
      if base in dir && Claims(dir[base]) {
        return Some(base);
      }
      if ip == [] {
        return Some(base);
      }
      var wide, matched, available := Scan(base, username, ip);
      if wide < VARIANT_LIMIT {
        return Some(Variant(base, wide));
      }
      if matched < VARIANT_LIMIT {
        return Some(Variant(base, matched));
      }
      if !create || available == VARIANT_LIMIT {
        return None;
      }
      return Some(Variant(base, available));
    }

    /** The loop over the variant files; it stops at the first record valid at every address. */
    method Scan(base: FileName, username: UserName, ip: Ip) returns (wide: nat, matched: nat, available: nat)
      ensures wide == Lowest(WideVariants(dir, Variants(base), username), VARIANT_LIMIT)
      ensures wide == VARIANT_LIMIT ==>
                matched == Lowest(MatchingVariants(dir, Variants(base), username, ip), VARIANT_LIMIT)
      ensures wide == VARIANT_LIMIT ==> available == Lowest(FreeVariants(dir, Variants(base)), VARIANT_LIMIT)
    {
      wide, matched, available := VARIANT_LIMIT, VARIANT_LIMIT, VARIANT_LIMIT;
      ghost var wides := WideVariants(dir, Variants(base), username);
      ghost var matches := MatchingVariants(dir, Variants(base), username, ip);
      ghost var frees := FreeVariants(dir, Variants(base));
      for idx := 0 to VARIANT_LIMIT
        invariant wide == VARIANT_LIMIT && LowestSoFar(wides, wide, idx)
        invariant LowestSoFar(matches, matched, idx) && LowestSoFar(frees, available, idx)
      {
        var name := Variant(base, idx);
        assert matches(idx) <==> name in dir && HasKey(dir[name], username, ip);
        if name in dir {
          var existing := dir[name];
          if existing.username == username {
            if existing.ipWide {
              wide := idx;
              LowestIs(wides, VARIANT_LIMIT, wide);
              return;
            }
            if existing.lastIp == ip && matched == VARIANT_LIMIT {
              matched := idx;
            }
          }
        } else if available == VARIANT_LIMIT {
          available := idx;
        }
      }
      LowestIs(wides, VARIANT_LIMIT, wide);
      LowestIs(matches, VARIANT_LIMIT, matched);
      LowestIs(frees, VARIANT_LIMIT, available);
    }

    /** user_data_load */
    method Load(username: UserName, ip: Ip) returns (r: Option<Record>)
      ensures r == LoadFrom(dir, username, ip)
    {
      var path := PathFor(username, ip, false);
      if path.None? || path.value !in dir {
        return None;
      }
      var temp := Normalize(dir[path.value], username);
      if ip != [] {
        temp := temp.(lastIp := ip);
      }
      return Some(temp);
    }

    /** user_data_save */
    method Save(record: Record, ip: Ip, disk: Disk) returns (ok: bool)
      modifies this
      ensures (dir, ok) == SaveTo(old(dir), record, ip, disk)
    {
      var effective := if ip != [] then ip else record.lastIp;
      var path: Option<FileName>;
      if Claims(record) {
        if record.username == [] {
          return false;
        }
        var base := SanitizeName(record.username);
        path := Some(base);
      } else {
        path := PathFor(record.username, effective, true);
        if path.None? {
          return false;
        }
      }
      if disk.NotWritten? {
        return false;
      }
      dir := dir[path.value := OnDisk(record, effective)];
      if disk.PictureLost? {
        return false;
      }
      if record.ipWide {
        RemoveVariants(record.username, path.value);
      }
      return true;
    }

    /** user_data_remove_ip_variants */
    method RemoveVariants(username: UserName, keep: FileName)
      requires username != []
      modifies this
      ensures dir == old(dir) - StaleVariants(old(dir), username, keep, VARIANT_LIMIT)
    {
      var base := SanitizeName(username);
      for idx := 0 to VARIANT_LIMIT
        invariant dir == old(dir) - StaleVariants(old(dir), username, keep, idx)
      {
        var name := Variant(base, idx);
        if name != keep && name in dir && dir[name].username == username {
          dir := dir - {name};
        }
      }
    }

    /** The copying loop of user_data_sanitize_username. */
    method SanitizeName(name: UserName) returns (r: FileName)
      ensures r == Sanitize(name)
    {
      r := [];
      for i := 0 to |name|
        invariant r == SanitizeAll(name[..i])
      {
        assert name[..i + 1][..i] == name[..i];
        var ch: Byte := if 65 <= name[i] <= 90 then name[i] + 32 else name[i];
        if IsAlnum(ch) {
          r := r + [ch];
        } else if ch == 45 || ch == 95 || ch == 46 {
          r := r + [ch];
        } else if !IsSpace(ch) {
          r := r + [95];
        }
      }
      assert name[..|name|] == name;
      if r == [] {
        r := DEFAULT_NAME;
      }
    }
  }
}
