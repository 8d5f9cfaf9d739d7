/** The user record files as a table keyed by user name and address (src/user_data.c): when they behave as
  * one, over whole histories of saves, and when they do not. */
module UserTable {
  import opened Bytes
  import opened Options
  import opened Searching
  import opened UserStore

  // ---- The table ----

  /** Every record is found by name and address only. */
  predicate Plain(dir: Directory) {
    forall name :: name in dir ==> !Claims(dir[name])
  }

  function AtMost(n: nat, limit: nat): nat {
    if n <= limit then n else limit
  }

  function AsFlag(b: Byte): Byte {
    if b == 0 then 0 else 1
  }

  /** A record as it is kept for a user and an address, field by field: counts are cut to their limits, flags
    * become 0 or 1, and everything else is the record's own. */
  function Kept(r: Record, username: UserName, ip: Ip): (k: Record) {
    Record(username, ip, r.hasPassword, r.ipWide, AsFlag(r.hasUserTheme), AsFlag(r.userIsBold),
           AtMost(r.mailboxCount, MAILBOX_LIMIT), AtMost(r.flagHistoryCount, FLAG_HISTORY_LIMIT), r.body)
  }

  /** What a save puts on disk, and what a load makes of a record, is that. */
  lemma NormalizedIsKept(r: Record, username: UserName, ip: Ip)
    ensures ip != [] && username != [] ==> Normalize(r, username).(lastIp := ip) == Kept(r, username, ip)
    ensures ip != [] || r.lastIp == [] ==> OnDisk(r, ip) == Kept(r, r.username, ip)
  {
  }

  /** The first of these files with a record of this user and address. */
  function Search(dir: Directory, names: Naming, username: UserName, ip: Ip): (r: Option<Record>) {
    var k := Lowest(MatchingVariants(dir, names, username, ip), VARIANT_LIMIT);
    if k < VARIANT_LIMIT then Some(dir[names(k)]) else None
  }

  lemma NoWideVariants(dir: Directory, names: Naming, username: UserName)
    requires Plain(dir)
    ensures Lowest(WideVariants(dir, names, username), VARIANT_LIMIT) == VARIANT_LIMIT
  {
  }

  /** In a plain store loading is that search. */
  lemma PlainLoad(dir: Directory, username: UserName, ip: Ip)
    requires Plain(dir) && username != [] && ip != []
    ensures var found := Search(dir, Variants(Sanitize(username)), username, ip);
            LoadFrom(dir, username, ip) ==
              if found.Some? then Some(Kept(found.value, username, ip)) else None
  {
    NoWideVariants(dir, Variants(Sanitize(username)), username);
  }

  /** The file that a save of this key uses: the one already holding the key, or the first free one. */
  function Target(dir: Directory, names: Naming, username: UserName, ip: Ip): (k: nat)
    ensures k <= VARIANT_LIMIT
  {
    var matched := Lowest(MatchingVariants(dir, names, username, ip), VARIANT_LIMIT);
    if matched < VARIANT_LIMIT then matched else Lowest(FreeVariants(dir, names), VARIANT_LIMIT)
  }

  lemma PlainSave(dir: Directory, r: Record, ip: Ip)
    requires Plain(dir) && !Claims(r) && r.username != [] && EffectiveIp(r, ip) != []
    ensures var (names, eff) := (Variants(Sanitize(r.username)), EffectiveIp(r, ip));
            var k := Target(dir, names, r.username, eff);
            SaveTo(dir, r, ip, Stored) ==
              if k < VARIANT_LIMIT then (dir[names(k) := Kept(r, r.username, eff)], true) else (dir, false)
  {
    NoWideVariants(dir, Variants(Sanitize(r.username)), r.username);
  }

  /** A target file is free or holds the key itself. */
  lemma TargetIsSafe(dir: Directory, names: Naming, username: UserName, ip: Ip)
    requires Target(dir, names, username, ip) < VARIANT_LIMIT
    ensures var name := names(Target(dir, names, username, ip));
            name in dir ==> HasKey(dir[name], username, ip)
  {
  }

  lemma NoTargetExactly(dir: Directory, names: Naming, username: UserName, ip: Ip)
    ensures Target(dir, names, username, ip) == VARIANT_LIMIT <==>
            forall i :: 0 <= i < VARIANT_LIMIT ==> names(i) in dir && !HasKey(dir[names(i)], username, ip)
  {
    var (matches, frees) := (MatchingVariants(dir, names, username, ip), FreeVariants(dir, names));
    if Target(dir, names, username, ip) == VARIANT_LIMIT {
      forall i | 0 <= i < VARIANT_LIMIT
        ensures names(i) in dir && !HasKey(dir[names(i)], username, ip)
      {
        assert !matches(i) && !frees(i);
      }
    } else {
      TargetIsSafe(dir, names, username, ip);
    }
  }

  /** A save is refused exactly when no variant holds this key and all 32 are taken. */
  lemma SaveRefusedExactly(dir: Directory, r: Record, ip: Ip)
    requires Plain(dir) && !Claims(r) && r.username != [] && EffectiveIp(r, ip) != []
    ensures var names := Variants(Sanitize(r.username));
            !SaveTo(dir, r, ip, Stored).1 <==>
            forall i :: 0 <= i < VARIANT_LIMIT ==>
              names(i) in dir && !HasKey(dir[names(i)], r.username, EffectiveIp(r, ip))
  {
    PlainSave(dir, r, ip);
    NoTargetExactly(dir, Variants(Sanitize(r.username)), r.username, EffectiveIp(r, ip));
  }

  ghost predicate DistinctNames(names: Naming) {
    forall i, j :: 0 <= i < j < VARIANT_LIMIT ==> names(i) != names(j)
  }

  lemma VariantsDiffer(base: FileName, i: nat, j: nat)
    requires i < j < VARIANT_LIMIT
    ensures Variant(base, i) != Variant(base, j)
  {
    var (a, b) := (Variant(base, i), Variant(base, j));
    if |a| == |b| {
      assert a[|a| - 1] == 48 + i % 10 && b[|b| - 1] == 48 + j % 10;
      assert |a| == |base| + 3 ==> a[|a| - 2] == 48 + i / 10 % 10 && b[|b| - 2] == 48 + j / 10 % 10;
    }
  }

  lemma VariantsDistinct(base: FileName)
    ensures DistinctNames(Variants(base))
  {
    forall i, j | 0 <= i < j < VARIANT_LIMIT
      ensures Variants(base)(i) != Variants(base)(j)
    {
      VariantsDiffer(base, i, j);
    }
  }

  /** Writing a key's target makes it the first match of that key. */
  lemma SearchOwnKey(dir: Directory, names: Naming, r: Record)
    requires DistinctNames(names) && Target(dir, names, r.username, r.lastIp) < VARIANT_LIMIT
    ensures var k := Target(dir, names, r.username, r.lastIp);
            Search(dir[names(k) := r], names, r.username, r.lastIp) == Some(r)
  {
    var k := Target(dir, names, r.username, r.lastIp);
    var dir' := dir[names(k) := r];
    var matches := MatchingVariants(dir, names, r.username, r.lastIp);
    var matches' := MatchingVariants(dir', names, r.username, r.lastIp);
    forall j | 0 <= j < k
      ensures !matches'(j)
    {
      assert !matches(j) && names(j) != names(k);
    }
    LowestIs(matches', VARIANT_LIMIT, k);
  }

  /** Writing one key's record over a free file, or over its own, changes no search for another key. */
  lemma SearchOtherKey(dir: Directory, name: FileName, r: Record, names: Naming, username: UserName, ip: Ip)
    requires !HasKey(r, username, ip) && (name in dir ==> !HasKey(dir[name], username, ip))
    ensures Search(dir[name := r], names, username, ip) == Search(dir, names, username, ip)
  {
    var matches := MatchingVariants(dir, names, username, ip);
    var matches' := MatchingVariants(dir[name := r], names, username, ip);
    forall j: nat
      ensures matches'(j) == matches(j) && (matches(j) ==> names(j) != name)
    {
    }
    LowestIs(matches', VARIANT_LIMIT, Lowest(matches, VARIANT_LIMIT));
  }

  lemma WrittenStaysPlain(dir: Directory, name: FileName, r: Record)
    requires Plain(dir) && !Claims(r)
    ensures Plain(dir[name := r])
  {
  }

  /** A save reports success exactly when its record is in place and its picture is stored; a plain record's
    * file is written the same whether or not the picture follows. */
  lemma PictureAside(dir: Directory, r: Record, ip: Ip, disk: Disk)
    ensures SaveTo(dir, r, ip, disk).1 <==> Reaches(dir, r, ip, disk) && disk.Stored?
    ensures !r.ipWide && !disk.NotWritten? ==> SaveTo(dir, r, ip, disk).0 == SaveTo(dir, r, ip, Stored).0
  {
  }

  /** Once a save has put its record in place its key loads that record; otherwise it leaves every file
    * alone. */
  lemma SaveThenLoad(dir: Directory, r: Record, ip: Ip, disk: Disk)
    requires Plain(dir) && !Claims(r) && r.username != [] && EffectiveIp(r, ip) != []
    ensures var dir' := SaveTo(dir, r, ip, disk).0;
            && Plain(dir') && (!Reaches(dir, r, ip, disk) ==> dir' == dir)
            && (Reaches(dir, r, ip, disk) ==>
                  LoadFrom(dir', r.username, EffectiveIp(r, ip)) == Some(Kept(r, r.username, EffectiveIp(r, ip))))
  {
    if !disk.NotWritten? {
      var (names, eff) := (Variants(Sanitize(r.username)), EffectiveIp(r, ip));
      PictureAside(dir, r, ip, disk);
      PlainSave(dir, r, ip);
      var (k, kept) := (Target(dir, names, r.username, eff), Kept(r, r.username, eff));
      if k < VARIANT_LIMIT {
        VariantsDistinct(Sanitize(r.username));
        SearchOwnKey(dir, names, kept);
        WrittenStaysPlain(dir, names(k), kept);
        PlainLoad(dir[names(k) := kept], r.username, eff);
      }
    }
  }

  /** The loaded record, field by field, after a save that put its record in place: of a plain record under
    * its key, and of any other under every address. */
  lemma SavedFieldsLoaded(dir: Directory, r: Record, ip: Ip, disk: Disk, at: Ip) returns (n: Record)
    requires r.username != [] && at != [] && Reaches(dir, r, ip, disk)
    requires Claims(r) || (Plain(dir) && at == if ip == [] then r.lastIp else ip)
    ensures LoadFrom(SaveTo(dir, r, ip, disk).0, r.username, at) == Some(n)
    ensures n.body == r.body && n.username == r.username && n.lastIp == at
    ensures n.hasPassword == r.hasPassword && n.ipWide == r.ipWide
    ensures n.mailboxCount == if r.mailboxCount > 32 then 32 else r.mailboxCount
    ensures n.flagHistoryCount == if r.flagHistoryCount > 16 then 16 else r.flagHistoryCount
    ensures n.hasUserTheme == if r.hasUserTheme == 0 then 0 else 1
    ensures n.userIsBold == if r.userIsBold == 0 then 0 else 1
  {
    n := Kept(r, r.username, at);
    if Claims(r) {
      ClaimAnswersForNamesakes(dir, r, ip, disk, r.username, at);
    } else {
      SaveThenLoad(dir, r, ip, disk);
    }
  }

  /** No save, successful or not, disturbs another key, whatever file names the two users share. */
  lemma SaveKeepsOthers(dir: Directory, r: Record, ip: Ip, disk: Disk, username: UserName, otherIp: Ip)
    requires Plain(dir) && !Claims(r) && r.username != [] && EffectiveIp(r, ip) != []
    requires username != [] && otherIp != [] && (username, otherIp) != (r.username, EffectiveIp(r, ip))
    ensures LoadFrom(SaveTo(dir, r, ip, disk).0, username, otherIp) == LoadFrom(dir, username, otherIp)
  {
    if Reaches(dir, r, ip, disk) {
      var (names, eff) := (Variants(Sanitize(r.username)), EffectiveIp(r, ip));
      PictureAside(dir, r, ip, disk);
      PlainSave(dir, r, ip);
      TargetIsSafe(dir, names, r.username, eff);
      var (name, kept) := (names(Target(dir, names, r.username, eff)), Kept(r, r.username, eff));
      WrittenStaysPlain(dir, name, kept);
      SearchOtherKey(dir, name, kept, Variants(Sanitize(username)), username, otherIp);
      PlainLoad(dir, username, otherIp);
      PlainLoad(dir[name := kept], username, otherIp);
    }
  }

  // ---- Records that claim a name ----

  /** Once a record with a password, or valid at every address, is in place, it is what every user with
    * the same sanitized name loads, under that user's own name. */
  lemma ClaimAnswersForNamesakes(dir: Directory, r: Record, ip: Ip, disk: Disk, username: UserName, otherIp: Ip)
    requires Claims(r) && r.username != [] && username != [] && otherIp != [] && !disk.NotWritten?
    requires Sanitize(username) == Sanitize(r.username)
    ensures LoadFrom(SaveTo(dir, r, ip, disk).0, username, otherIp)
         == Some(Kept(r, username, otherIp))
  {
    var onDisk := OnDisk(r, EffectiveIp(r, ip));
    KeptIsNotStale(dir[Sanitize(r.username) := onDisk], r.username, Sanitize(r.username), VARIANT_LIMIT);
    NormalizedIsKept(onDisk, username, otherIp);
    NormalizedIsKept(r, r.username, EffectiveIp(r, ip));
  }

  /** And a plain save by any such user replaces it: the claim on the name is gone. */
  lemma NamesakeOverwritesClaim(dir: Directory, r: Record, ip: Ip)
    requires !Claims(r) && r.username != [] && Sanitize(r.username) in dir && Claims(dir[Sanitize(r.username)])
    ensures var (dir', saved) := SaveTo(dir, r, ip, Stored);
            && saved && dir' == dir[Sanitize(r.username) := Kept(r, r.username, EffectiveIp(r, ip))]
            && !Claims(dir'[Sanitize(r.username)])
  {
  }

  /** The variant chosen for a user is free or holds a record of that user. */
  lemma ChosenIsOwnOrFree(dir: Directory, names: Naming, username: UserName, ip: Ip, create: bool)
    ensures var path := ChooseVariant(dir, names, username, ip, create);
            path.Some? && path.value in dir ==> dir[path.value].username == username
  {
  }

  /** A save by somebody of another sanitized name never chooses the file of a claim. */
  lemma ClaimNotChosen(dir: Directory, r: Record, ip: Ip, base: FileName)
    requires !Claims(r) && base in dir && dir[base].username != r.username && base != Sanitize(r.username)
    ensures SavePath(dir, r, ip) != Some(base)
  {
    ChosenIsOwnOrFree(dir, Variants(Sanitize(r.username)), r.username, EffectiveIp(r, ip), true);
  }

  /** The exact condition: a plain save leaves a claim in its base file alone if and only if it writes
    * nothing or its user has another sanitized name. */
  lemma ClaimSurvivesExactly(dir: Directory, owner: UserName, r: Record, ip: Ip, disk: Disk)
    requires !Claims(r) && Sanitize(owner) in dir && dir[Sanitize(owner)].username == owner
    requires Claims(dir[Sanitize(owner)])
    ensures var (base, dir') := (Sanitize(owner), SaveTo(dir, r, ip, disk).0);
            base in dir' && (Claims(dir'[base]) <==>
              disk.NotWritten? || r.username == [] || Sanitize(r.username) != base)
            && (Claims(dir'[base]) ==> dir'[base] == dir[base])
  {
    if Sanitize(r.username) != Sanitize(owner) {
      ClaimNotChosen(dir, r, ip, Sanitize(owner));
    }
  }

  lemma {:induction false} KeptIsNotStale(dir: Directory, username: UserName, keep: FileName, n: nat)
    ensures keep !in StaleVariants(dir, username, keep, n)
  {
    if n == 0 {
    } else {
      KeptIsNotStale(dir, username, keep, n - 1);
    }
  }

  /** An address unlike each of the given ones: it differs from the j-th at offset j. */
  function Diagonal(others: seq<Ip>): (ip: Ip)
    requires 0 < |others| <= 63
    ensures ip != [] && forall j :: 0 <= j < |others| ==> ip != others[j]
  {
    var ip := seq(|others|, j requires 0 <= j < |others| => if At(others[j], j) == 1 then 2 else 1);
    assert forall j :: 0 <= j < |others| && |ip| == |others[j]| ==> ip[j] != others[j][j];
    ip
  }

  function AddressIn(dir: Directory, name: FileName): Ip {
    if name in dir then dir[name].lastIp else []
  }

  /** The addresses recorded in the variant files of one name. */
  function Addresses(dir: Directory, names: Naming): (r: seq<Ip>)
    ensures |r| == VARIANT_LIMIT && forall j :: 0 <= j < VARIANT_LIMIT ==> r[j] == AddressIn(dir, names(j))
  {
    seq<Ip>(VARIANT_LIMIT, j requires 0 <= j < VARIANT_LIMIT => AddressIn(dir, names(j)))
  }

  /** In a plain store there is an address under which a user has no record, besides any given one. */
  lemma UnusedAddress(dir: Directory, username: UserName, used: Ip) returns (ip: Ip)
    requires Plain(dir) && username != []
    ensures ip != [] && ip != used && LoadFrom(dir, username, ip).None?
  {
    var names := Variants(Sanitize(username));
    var others := Addresses(dir, names) + [used];
    ip := Diagonal(others);
    assert others[VARIANT_LIMIT] == used;
    var matches := MatchingVariants(dir, names, username, ip);
    forall j | 0 <= j < VARIANT_LIMIT
      ensures !matches(j)
    {
      assert others[j] == Addresses(dir, names)[j];
    }
    LowestIs(matches, VARIANT_LIMIT, VARIANT_LIMIT);
    PlainLoad(dir, username, ip);
  }

  /** A claim put in place answers for an address under which the user had nothing. */
  lemma ClaimDisturbs(dir: Directory, r: Record, ip: Ip, disk: Disk) returns (otherIp: Ip)
    requires Plain(dir) && Claims(r) && r.username != [] && !disk.NotWritten?
    ensures otherIp != [] && otherIp != EffectiveIp(r, ip)
    ensures LoadFrom(dir, r.username, otherIp).None? && LoadFrom(SaveTo(dir, r, ip, disk).0, r.username, otherIp).Some?
  {
    otherIp := UnusedAddress(dir, r.username, EffectiveIp(r, ip));
    ClaimAnswersForNamesakes(dir, r, ip, disk, r.username, otherIp);
  }

  // ---- Saves without an address ----

  /** Every record is in a variant file of its own name. */
  ghost predicate Filed(dir: Directory) {
    forall name :: name in dir ==> dir[name].username != [] && IsVariant(name, dir[name].username)
  }

  /** No two files hold the same user and address. */
  ghost predicate Unique(dir: Directory) {
    forall a, b :: a in dir && b in dir && a != b && dir[b].lastIp != [] ==>
      !HasKey(dir[a], dir[b].username, dir[b].lastIp)
  }

  ghost predicate Tidy(dir: Directory) {
    Plain(dir) && Filed(dir) && Unique(dir)
  }

  ghost predicate IsVariant(name: FileName, username: UserName) {
    exists k :: 0 <= k < VARIANT_LIMIT && name == Variants(Sanitize(username))(k)
  }

  /** A save without an address goes to the base file, whoever's record that holds. */
  lemma AddresslessSave(dir: Directory, r: Record, ip: Ip, disk: Disk)
    requires Plain(dir) && !Claims(r) && r.username != [] && EffectiveIp(r, ip) == [] && !disk.NotWritten?
    ensures SaveTo(dir, r, ip, disk).0 == dir[Sanitize(r.username) := Kept(r, r.username, [])]
    ensures Reaches(dir, r, ip, disk) && Kept(r, r.username, []).lastIp == [] && !Claims(Kept(r, r.username, []))
  {
  }

  /** It disturbs nobody when the base file is free or holds a record without an address. */
  lemma AddresslessKeepsOthers(dir: Directory, r: Record, ip: Ip, disk: Disk, username: UserName, otherIp: Ip)
    requires Plain(dir) && !Claims(r) && r.username != [] && EffectiveIp(r, ip) == [] && !disk.NotWritten?
    requires Sanitize(r.username) in dir ==> dir[Sanitize(r.username)].lastIp == []
    requires username != [] && otherIp != []
    ensures LoadFrom(SaveTo(dir, r, ip, disk).0, username, otherIp) == LoadFrom(dir, username, otherIp)
  {
    var base := Sanitize(r.username);
    AddresslessSave(dir, r, ip, disk);
    WrittenStaysPlain(dir, base, Kept(r, r.username, []));
    SearchOtherKey(dir, base, Kept(r, r.username, []), Variants(Sanitize(username)), username, otherIp);
    PlainLoad(dir, username, otherIp);
    PlainLoad(dir[base := Kept(r, r.username, [])], username, otherIp);
  }

  /** In a tidy store every record with an address loads under its own key. */
  lemma FiledLoads(dir: Directory, name: FileName)
    requires Tidy(dir) && name in dir && dir[name].lastIp != []
    ensures LoadFrom(dir, dir[name].username, dir[name].lastIp).Some?
  {
    var (username, ip) := (dir[name].username, dir[name].lastIp);
    var k :| 0 <= k < VARIANT_LIMIT && name == Variants(Sanitize(username))(k);
    assert MatchingVariants(dir, Variants(Sanitize(username)), username, ip)(k);
    PlainLoad(dir, username, ip);
  }

  /** And no longer does once its file is overwritten. */
  lemma OverwrittenIsGone(dir: Directory, name: FileName, r: Record)
    requires Tidy(dir) && name in dir && dir[name].lastIp != [] && r.lastIp == [] && !Claims(r)
    ensures LoadFrom(dir[name := r], dir[name].username, dir[name].lastIp).None?
  {
    var (username, ip) := (dir[name].username, dir[name].lastIp);
    var names := Variants(Sanitize(username));
    var matches := MatchingVariants(dir[name := r], names, username, ip);
    forall j | 0 <= j < VARIANT_LIMIT
      ensures !matches(j)
    {
      assert names(j) in dir && names(j) != name ==> !HasKey(dir[names(j)], username, ip);
    }
    LowestIs(matches, VARIANT_LIMIT, VARIANT_LIMIT);
    WrittenStaysPlain(dir, name, r);
    PlainLoad(dir[name := r], username, ip);
  }

  // ---- When a save disturbs another key ----

  datatype SaveRequest = SaveRequest(record: Record, ip: Ip, disk: Disk)

  function KeyOf(q: SaveRequest): (UserName, Ip) {
    (q.record.username, EffectiveIp(q.record, q.ip))
  }

  function Saved(dir: Directory, q: SaveRequest): (dir': Directory) {
    SaveTo(dir, q.record, q.ip, q.disk).0
  }

  /** The save puts a record in place that is found by the name alone, or one without an address over
    * somebody's record with one. */
  predicate Breaks(dir: Directory, q: SaveRequest) {
    var base := Sanitize(q.record.username);
    && !q.disk.NotWritten? && q.record.username != []
    && (Claims(q.record) || (KeyOf(q).1 == [] && base in dir && dir[base].lastIp != []))
  }

  /** A save that breaks nothing leaves every other key alone. */
  lemma UnbrokenKeepsOthers(dir: Directory, q: SaveRequest, username: UserName, ip: Ip)
    requires Plain(dir) && !Breaks(dir, q)
    requires username != [] && ip != [] && (username, ip) != KeyOf(q)
    ensures LoadFrom(Saved(dir, q), username, ip) == LoadFrom(dir, username, ip)
  {
    if !q.disk.NotWritten? && q.record.username != [] {
      if KeyOf(q).1 == [] {
        AddresslessKeepsOthers(dir, q.record, q.ip, q.disk, username, ip);
      } else {
        SaveKeepsOthers(dir, q.record, q.ip, q.disk, username, ip);
      }
    }
  }

  /** One that does makes some other key load when it did not, or no longer load when it did. */
  lemma BrokenDisturbs(dir: Directory, q: SaveRequest) returns (username: UserName, ip: Ip)
    requires Plain(dir) && Breaks(dir, q) && (KeyOf(q).1 == [] ==> Tidy(dir))
    ensures username != [] && ip != [] && (username, ip) != KeyOf(q)
    ensures LoadFrom(Saved(dir, q), username, ip).Some? <==> LoadFrom(dir, username, ip).None?
  {
    if Claims(q.record) {
      username := q.record.username;
      ip := ClaimDisturbs(dir, q.record, q.ip, q.disk);
    } else {
      var base := Sanitize(q.record.username);
      username, ip := dir[base].username, dir[base].lastIp;
      AddresslessSave(dir, q.record, q.ip, q.disk);
      FiledLoads(dir, base);
      OverwrittenIsGone(dir, base, Kept(q.record, q.record.username, []));
    }
  }

  /** Every key but the saved one loads what it did before. */
  ghost predicate KeepsOthers(dir: Directory, q: SaveRequest) {
    forall username: UserName, ip: Ip :: username != [] && ip != [] && (username, ip) != KeyOf(q) ==>
      LoadFrom(Saved(dir, q), username, ip) == LoadFrom(dir, username, ip)
  }

  /** The exact condition for one save to leave every other key alone. */
  lemma SaveKeepsOthersExactly(dir: Directory, q: SaveRequest)
    requires Plain(dir) && (KeyOf(q).1 == [] ==> Tidy(dir))
    ensures KeepsOthers(dir, q) <==> !Breaks(dir, q)
  {
    if Breaks(dir, q) {
      var username, ip := BrokenDisturbs(dir, q);
    } else {
      forall username: UserName, ip: Ip | username != [] && ip != [] && (username, ip) != KeyOf(q)
        ensures LoadFrom(Saved(dir, q), username, ip) == LoadFrom(dir, username, ip)
      {
        UnbrokenKeepsOthers(dir, q, username, ip);
      }
    }
  }

  // ---- Whole histories of saves ----

  lemma WrittenStaysFiled(dir: Directory, name: FileName, r: Record)
    requires Filed(dir) && r.username != [] && IsVariant(name, r.username)
    ensures Filed(dir[name := r])
  {
  }

  lemma WrittenStaysUnique(dir: Directory, name: FileName, r: Record)
    requires Unique(dir)
    requires r.lastIp != [] ==> forall a :: a in dir && a != name ==> !HasKey(dir[a], r.username, r.lastIp)
    ensures Unique(dir[name := r])
  {
    var dir' := dir[name := r];
    forall a, b | a in dir' && b in dir' && a != b && dir'[b].lastIp != []
      ensures !HasKey(dir'[a], dir'[b].username, dir'[b].lastIp)
    {
      if a != name && b != name {
        assert !HasKey(dir[a], dir[b].username, dir[b].lastIp);
      } else if a == name && r.lastIp == dir[b].lastIp {
        assert !HasKey(dir[b], r.username, r.lastIp);
      }
    }
  }

  /** A key's target is the only file that holds the key, if any does. */
  lemma OnlyTargetHolds(dir: Directory, username: UserName, ip: Ip, a: FileName)
    requires Filed(dir) && Unique(dir) && ip != [] && a in dir && HasKey(dir[a], username, ip)
    ensures var names := Variants(Sanitize(username));
            var k := Target(dir, names, username, ip);
            k < VARIANT_LIMIT && a == names(k)
  {
    var names := Variants(Sanitize(username));
    assert IsVariant(a, username);
    var k :| 0 <= k < VARIANT_LIMIT && a == names(k);
    assert MatchingVariants(dir, names, username, ip)(k);
    TargetIsSafe(dir, names, username, ip);
  }

  /** Writing a key's target keeps a store tidy. */
  lemma TargetKeepsTidy(dir: Directory, r: Record)
    requires Tidy(dir) && !Claims(r) && r.username != [] && r.lastIp != []
    requires Target(dir, Variants(Sanitize(r.username)), r.username, r.lastIp) < VARIANT_LIMIT
    ensures var names := Variants(Sanitize(r.username));
            Tidy(dir[names(Target(dir, names, r.username, r.lastIp)) := r])
  {
    var names := Variants(Sanitize(r.username));
    var name := names(Target(dir, names, r.username, r.lastIp));
    forall a | a in dir && a != name
      ensures !HasKey(dir[a], r.username, r.lastIp)
    {
      if HasKey(dir[a], r.username, r.lastIp) {
        OnlyTargetHolds(dir, r.username, r.lastIp, a);
      }
    }
    WrittenStaysPlain(dir, name, r);
    WrittenStaysFiled(dir, name, r);
    WrittenStaysUnique(dir, name, r);
  }

  lemma BaseKeepsTidy(dir: Directory, r: Record)
    requires Tidy(dir) && !Claims(r) && r.username != [] && r.lastIp == []
    ensures Tidy(dir[Sanitize(r.username) := r])
  {
    var name := Sanitize(r.username);
    assert name == Variants(Sanitize(r.username))(0);
    WrittenStaysPlain(dir, name, r);
    WrittenStaysFiled(dir, name, r);
    WrittenStaysUnique(dir, name, r);
  }

  lemma SaveKeepsTidy(dir: Directory, q: SaveRequest)
    requires Tidy(dir) && !Breaks(dir, q)
    ensures Tidy(Saved(dir, q))
  {
    if !q.disk.NotWritten? && q.record.username != [] {
      PictureAside(dir, q.record, q.ip, q.disk);
      var (username, ip) := KeyOf(q);
      if ip == [] {
        AddresslessSave(dir, q.record, q.ip, q.disk);
        BaseKeepsTidy(dir, Kept(q.record, q.record.username, []));
      } else {
        PlainSave(dir, q.record, q.ip);
        if Target(dir, Variants(Sanitize(username)), username, ip) < VARIANT_LIMIT {
          TargetKeepsTidy(dir, Kept(q.record, username, ip));
        }
      }
    }
  }

  function FilesAfter(history: seq<SaveRequest>): (dir: Directory) {
    if history == [] then map[]
    else Saved(FilesAfter(history[..|history| - 1]), history[|history| - 1])
  }

  /** The reference: a map from keys to the record of the last save that put one in place. */
  function TableAfter(history: seq<SaveRequest>): (table: map<(UserName, Ip), Record>) {
    if history == [] then map[]
    else
      var before := history[..|history| - 1];
      var q := history[|history| - 1];
      if Reaches(FilesAfter(before), q.record, q.ip, q.disk)
      then TableAfter(before)[KeyOf(q) := Kept(q.record, q.record.username, KeyOf(q).1)]
      else TableAfter(before)
  }

  /** What the table answers for a key. */
  function Lookup(table: map<(UserName, Ip), Record>, username: UserName, ip: Ip): Option<Record> {
    if (username, ip) in table then Some(table[(username, ip)]) else None
  }

  /** No save of the history breaks the table at the point where it is made. */
  predicate Unbroken(history: seq<SaveRequest>) {
    history != [] ==>
      var n := |history| - 1;
      Unbroken(history[..n]) && !Breaks(FilesAfter(history[..n]), history[n])
  }

  /** A plain record under an address. */
  predicate Ordinary(q: SaveRequest) {
    !Claims(q.record) && KeyOf(q).1 != []
  }

  /** Saves of plain records under addresses never break the table. */
  lemma {:induction false} OrdinaryIsUnbroken(history: seq<SaveRequest>)
    requires forall i :: 0 <= i < |history| ==> Ordinary(history[i])
    ensures Unbroken(history)
    decreases |history|
  {
    if history == [] {
    } else {
      assert Ordinary(history[|history| - 1]);
      OrdinaryIsUnbroken(history[..|history| - 1]);
    }
  }

  lemma {:induction false} UnbrokenBefore(history: seq<SaveRequest>, n: nat)
    requires Unbroken(history) && n <= |history|
    ensures Unbroken(history[..n])
    decreases |history|
  {
    if n == |history| {
      assert history[..n] == history;
    } else {
      UnbrokenBefore(history[..|history| - 1], n);
      assert history[..|history| - 1][..n] == history[..n];
    }
  }

  /** A history taken apart at its last save. */
  lemma LastSave(history: seq<SaveRequest>) returns (before: seq<SaveRequest>, q: SaveRequest)
    requires Unbroken(history) && history != []
    ensures history == before + [q] && Unbroken(before) && !Breaks(FilesAfter(before), q)
  {
    before, q := history[..|history| - 1], history[|history| - 1];
  }

  /** And at the first save that breaks the table. */
  lemma {:induction false} FirstBreak(history: seq<SaveRequest>)
    returns (n: nat, before: seq<SaveRequest>, q: SaveRequest)
    requires !Unbroken(history)
    ensures n <= |history| && history[..n] == before + [q]
    ensures Unbroken(before) && Breaks(FilesAfter(before), q)
    decreases |history|
  {
    var last := |history| - 1;
    if Unbroken(history[..last]) {
      n, before, q := |history|, history[..last], history[last];
    } else {
      n, before, q := FirstBreak(history[..last]);
      assert history[..last][..n] == history[..n];
    }
  }

  lemma {:induction false} UnbrokenIsTidy(history: seq<SaveRequest>)
    requires Unbroken(history)
    ensures Tidy(FilesAfter(history))
    decreases |history|
  {
    if history == [] {
    } else {
      var n := |history| - 1;
      UnbrokenIsTidy(history[..n]);
      SaveKeepsTidy(FilesAfter(history[..n]), history[n]);
    }
  }

  lemma UnbrokenIsPlain(history: seq<SaveRequest>)
    requires Unbroken(history)
    ensures Plain(FilesAfter(history))
  {
    UnbrokenIsTidy(history);
  }

  /** One more save that breaks nothing. */
  lemma OneMoreSave(before: seq<SaveRequest>, q: SaveRequest, username: UserName, ip: Ip)
    requires Plain(FilesAfter(before)) && !Breaks(FilesAfter(before), q) && username != [] && ip != []
    requires LoadFrom(FilesAfter(before), username, ip) == Lookup(TableAfter(before), username, ip)
    ensures LoadFrom(FilesAfter(before + [q]), username, ip) == Lookup(TableAfter(before + [q]), username, ip)
  {
    assert (before + [q])[..|before|] == before;
    if (username, ip) != KeyOf(q) {
      UnbrokenKeepsOthers(FilesAfter(before), q, username, ip);
    } else if !q.disk.NotWritten? {
      SaveThenLoad(FilesAfter(before), q.record, q.ip, q.disk);
    }
  }

  /** After any history in which no save breaks the table the files behave as that map: every key loads
    * the record last put in place for it, and keys never saved do not load. */
  lemma {:induction false} FilesAreTable(history: seq<SaveRequest>, username: UserName, ip: Ip)
    requires Unbroken(history)
    requires username != [] && ip != []
    ensures Plain(FilesAfter(history))
    ensures LoadFrom(FilesAfter(history), username, ip) == Lookup(TableAfter(history), username, ip)
    decreases |history|
  {
    UnbrokenIsPlain(history);
    if history == [] {
      PlainLoad(map[], username, ip);
    } else {
      var before, q := LastSave(history);
      FilesAreTable(before, username, ip);
      OneMoreSave(before, q, username, ip);
    }
  }

  /** The files answer for every key as the table does. */
  ghost predicate Lawful(history: seq<SaveRequest>) {
    forall username: UserName, ip: Ip :: username != [] && ip != [] ==>
      LoadFrom(FilesAfter(history), username, ip) == Lookup(TableAfter(history), username, ip)
  }

  lemma UnbrokenIsLawful(history: seq<SaveRequest>)
    requires Unbroken(history)
    ensures Lawful(history)
  {
    forall username: UserName, ip: Ip | username != [] && ip != []
      ensures LoadFrom(FilesAfter(history), username, ip) == Lookup(TableAfter(history), username, ip)
    {
      FilesAreTable(history, username, ip);
    }
  }

  /** A save that breaks the table is seen at once: some key is answered wrongly after it. */
  lemma BreakIsSeen(before: seq<SaveRequest>, q: SaveRequest)
    requires Tidy(FilesAfter(before)) && Lawful(before) && Breaks(FilesAfter(before), q)
    ensures !Lawful(before + [q])
  {
    var username, ip := BrokenDisturbs(FilesAfter(before), q);
    assert (before + [q])[..|before|] == before;
    assert Lookup(TableAfter(before + [q]), username, ip) == Lookup(TableAfter(before), username, ip);
    assert LoadFrom(FilesAfter(before), username, ip) == Lookup(TableAfter(before), username, ip);
  }

  lemma FirstBreakIsSeen(before: seq<SaveRequest>, q: SaveRequest)
    requires Unbroken(before) && Breaks(FilesAfter(before), q)
    ensures !Lawful(before + [q])
  {
    UnbrokenIsTidy(before);
    UnbrokenIsLawful(before);
    BreakIsSeen(before, q);
  }

  lemma LawWithoutBreak(history: seq<SaveRequest>)
    requires Unbroken(history)
    ensures forall n :: 0 <= n <= |history| ==> Lawful(history[..n])
  {
    forall n | 0 <= n <= |history|
      ensures Lawful(history[..n])
    {
      UnbrokenBefore(history, n);
      UnbrokenIsLawful(history[..n]);
    }
  }

  lemma NoLawAfterBreak(history: seq<SaveRequest>) returns (n: nat)
    requires !Unbroken(history)
    ensures n <= |history| && !Lawful(history[..n])
  {
    var before, q;
    n, before, q := FirstBreak(history);
    FirstBreakIsSeen(before, q);
  }

  /** The exact condition for whole histories, of any saves: the files answer as the table after every save
    * if and only if no save breaks it. */
  lemma TableLawExactly(history: seq<SaveRequest>)
    ensures (forall n :: 0 <= n <= |history| ==> Lawful(history[..n])) <==> Unbroken(history)
  {
    if Unbroken(history) {
      LawWithoutBreak(history);
    } else {
      var n := NoLawAfterBreak(history);
    }
  }
}
