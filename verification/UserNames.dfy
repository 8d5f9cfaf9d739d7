/** File names and the records valid at every address (src/user_data.c): what a sanitized name looks like, and which
  * files a save of such a record removes. */
module UserNames {
  import opened Bytes
  import opened Options
  import opened Searching
  import opened UserStore
  import opened UserTable

  // ---- Sanitized names ----

  predicate IsClean(b: Byte) {
    97 <= b <= 122 || 48 <= b <= 57 || b == 45 || b == 95 || b == 46
  }

  /** One byte of a name: clean ones stay, capitals become small letters, white space goes, and anything else
    * becomes an underscore. */
  lemma SanitizedByte(b: Byte)
    ensures SanitizeByte(b) ==
              if IsClean(b) then [b]
              else if 65 <= b <= 90 then [b + 32]
              else if b in [32, 9, 10, 11, 12, 13] then []
              else [95]
  {
  }

  lemma LastByte(name: seq<Byte>, b: Byte) returns (added: FileName)
    ensures SanitizeAll(name + [b]) == SanitizeAll(name) + added && added == SanitizeByte(b)
  {
    added := SanitizeByte(b);
    assert (name + [b])[..|name|] == name;
  }

  lemma CutLast(b: seq<Byte>) returns (rest: seq<Byte>, last: Byte)
    requires b != []
    ensures b == rest + [last] && |rest| < |b|
  {
    rest, last := b[..|b| - 1], b[|b| - 1];
  }

  lemma Regroup(x: seq<Byte>, y: seq<Byte>, z: seq<Byte>)
    ensures (x + y) + z == x + (y + z)
  {
  }

  lemma Around(x: seq<Byte>, y: seq<Byte>)
    ensures y == [] ==> x + y == x
  {
  }

  lemma NothingAdded()
    ensures SanitizeAll([]) == []
  {
  }

  /** Names are sanitized byte by byte. */
  lemma {:induction false} SanitizedInPieces(a: seq<Byte>, b: seq<Byte>)
    ensures SanitizeAll(a + b) == SanitizeAll(a) + SanitizeAll(b)
    decreases |b|
  {
    if b == [] {
      NothingAdded();
      Around(a, b);
      Around(SanitizeAll(a), SanitizeAll(b));
    } else {
      var rest, last := CutLast(b);
      Regroup(a, rest, [last]);
      var added := LastByte(a + rest, last);
      var added' := LastByte(rest, last);
      SanitizedInPieces(a, rest);
      Regroup(SanitizeAll(a), SanitizeAll(rest), added);
    }
  }

  lemma {:induction false} SanitizedAllClean(name: seq<Byte>)
    ensures |SanitizeAll(name)| <= |name| && forall k :: 0 <= k < |SanitizeAll(name)| ==> IsClean(SanitizeAll(name)[k])
  {
    if name == [] {
    } else {
      SanitizedAllClean(name[..|name| - 1]);
      SanitizedByte(name[|name| - 1]);
    }
  }

  lemma {:induction false} CleanStays(name: seq<Byte>)
    requires forall k :: 0 <= k < |name| ==> IsClean(name[k])
    ensures SanitizeAll(name) == name
  {
    if name == [] {
    } else {
      CleanStays(name[..|name| - 1]);
      SanitizedByte(name[|name| - 1]);
    }
  }

  /** A file name is never empty and holds only small letters, digits, '-', '_' and '.'; a name that is like that
    * already is kept, and "user" stands for a name of nothing but white space. */
  lemma SanitizedShape(name: seq<Byte>)
    ensures Sanitize(name) != [] && forall k :: 0 <= k < |Sanitize(name)| ==> IsClean(Sanitize(name)[k])
    ensures name != [] && (forall k :: 0 <= k < |name| ==> IsClean(name[k])) ==> Sanitize(name) == name
    ensures Sanitize(Sanitize(name)) == Sanitize(name)
    ensures SanitizeAll(name) == [] ==> Sanitize(name) == ['u' as int, 's' as int, 'e' as int, 'r' as int]
  {
    SanitizedAllClean(name);
    if forall k :: 0 <= k < |name| ==> IsClean(name[k]) {
      CleanStays(name);
    }
    CleanStays(Sanitize(name));
  }

  // ---- Variants ----

  /** The variant files are the base name and the base name with -1 to -31. */
  lemma VariantNames(base: FileName, k: nat)
    requires k < 32
    ensures Variant(base, k) ==
              if k == 0 then base
              else if k < 10 then base + ['-' as int, '0' as int + k]
              else base + ['-' as int, '0' as int + k / 10, '0' as int + k % 10]
  {
  }

  // ---- Records valid at every address ----

  lemma {:induction false} StaleExactly(dir: Directory, username: UserName, keep: FileName, n: nat, name: FileName)
    ensures name in StaleVariants(dir, username, keep, n) <==>
            && name != keep && name in dir && dir[name].username == username
            && exists k :: 0 <= k < n && name == Variants(Sanitize(username))(k)
  {
    if n == 0 {
    } else {
      StaleExactly(dir, username, keep, n - 1, name);
      var names := Variants(Sanitize(username));
      if k :| 0 <= k < n && name == names(k) {
        assert k < n - 1 || name == names(n - 1);
      }
      assert name == names(n - 1) ==> exists k :: 0 <= k < n && name == names(k);
    }
  }

  /** Saving a record valid at every address leaves it in the base file and removes the user's records from the
    * other variants; every other file is as it was. */
  lemma WideSaveClears(dir: Directory, r: Record, ip: Ip, name: FileName)
    requires r.ipWide && r.username != []
    ensures var (dir', ok) := SaveTo(dir, r, ip, Stored);
            var base := Sanitize(r.username);
            && ok && base in dir' && dir'[base] == Kept(r, r.username, EffectiveIp(r, ip))
            && (name != base ==>
                  && (name in dir' <==>
                        name in dir && !(dir[name].username == r.username && IsVariant(name, r.username)))
                  && (name in dir' ==> dir'[name] == dir[name]))
  {
    var base := Sanitize(r.username);
    var written := dir[base := OnDisk(r, EffectiveIp(r, ip))];
    NormalizedIsKept(r, r.username, EffectiveIp(r, ip));
    StaleExactly(written, r.username, base, VARIANT_LIMIT, name);
    KeptIsNotStale(written, r.username, base, VARIANT_LIMIT);
  }

  /** The file holds a record of this user that is valid at every address. */
  predicate WideOf(dir: Directory, name: FileName, username: UserName) {
    name in dir && dir[name].username == username && dir[name].ipWide
  }

  /** The first such file among the variants answers at every address, as long as no other claim stands in the
    * base file. */
  lemma WideAnswers(dir: Directory, username: UserName, ip: Ip, k: nat)
    requires username != [] && ip != [] && k < VARIANT_LIMIT
    requires WideOf(dir, Variant(Sanitize(username), k), username)
    requires forall j :: 0 <= j < k ==> !WideOf(dir, Variant(Sanitize(username), j), username)
    requires k == 0 || !(Sanitize(username) in dir && Claims(dir[Sanitize(username)]))
    ensures LoadFrom(dir, username, ip) == Some(Kept(dir[Variant(Sanitize(username), k)], username, ip))
  {
    LowestIs(WideVariants(dir, Variants(Sanitize(username)), username), VARIANT_LIMIT, k);
    NormalizedIsKept(dir[Variant(Sanitize(username), k)], username, ip);
  }
}
