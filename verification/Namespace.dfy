/** Device names, mount points and the paths routed through them. */
module Namespace {
  import opened MachineInts

  function Digit(d: nat): char
    requires d < 10
  {
    '0' + d as char
  }

  function DigitValue(c: char): nat {
    if '0' <= c <= '9' then c as int - '0' as int else 0
  }

  /** Decimal notation as `{}` prints an unsigned integer. */
  function Decimal(n: nat): (s: string)
    ensures s != [] && forall c <- s :: '0' <= c <= '9'
  {
    if n < 10 then [Digit(n)] else Decimal(n / 10) + [Digit(n % 10)]
  }

  function Value(s: string): nat {
    if s == [] then 0 else 10 * Value(s[..|s| - 1]) + DigitValue(s[|s| - 1])
  }

  lemma {:induction false} DecimalRoundTrip(n: nat)
    ensures Value(Decimal(n)) == n
  {
    if n < 10 {
      assert Value([]) == 0 && [Digit(n)][..0] == [];
    } else {
      DecimalRoundTrip(n / 10);
      assert Decimal(n)[..|Decimal(n)| - 1] == Decimal(n / 10);
    }
  }

  /** Decimal notation without a superfluous leading zero. */
  predicate IsDecimal(s: string) {
    s != [] && (forall c <- s :: '0' <= c <= '9') && (|s| > 1 ==> s[0] != '0')
  }

  lemma {:induction false} PositiveValue(s: string)
    requires s != [] && (forall c <- s :: '0' <= c <= '9') && s[0] != '0'
    ensures Value(s) > 0
  {
    assert s[0] in s;
    if |s| > 1 {
      var init := s[..|s| - 1];
      assert init[0] == s[0] && forall c <- init :: c in s;
      PositiveValue(init);
    }
  }

  lemma {:induction false} PrintedHead(n: nat)
    ensures Decimal(n)[0] == '0' <==> n == 0
    ensures n == 0 ==> |Decimal(n)| == 1
  {
    if n >= 10 {
      PrintedHead(n / 10);
    }
  }

  lemma LeadingZero(s: string)
    requires |s| > 1 && s[0] == '0'
    ensures Decimal(Value(s)) != s
  {
    PrintedHead(Value(s));
  }

  /** Every plain decimal notation is the one printed for its value, and only those are printed. */
  lemma {:induction false} DecimalCanonical(s: string)
    requires s != [] && forall c <- s :: '0' <= c <= '9'
    ensures Decimal(Value(s)) == s <==> IsDecimal(s)
  {
    var init, d := s[..|s| - 1], DigitValue(s[|s| - 1]);
    assert s[|s| - 1] in s && Digit(d) == s[|s| - 1];
    if |s| == 1 {
      assert Value(init) == 0 && s == [Digit(d)];
    } else {
      assert s[0] in s && init[0] == s[0];
      assert forall c <- init :: c in s;
      DecimalCanonical(init);
      assert Value(s) / 10 == Value(init) && Value(s) % 10 == d;
      if s[0] == '0' {
        LeadingZero(s);
      } else {
        PositiveValue(init);
        assert s == init + [Digit(d)];
      }
    }
  }

  lemma DecimalInjective(i: nat, j: nat)
    ensures Decimal(i) == Decimal(j) <==> i == j
  {
    DecimalRoundTrip(i);
    DecimalRoundTrip(j);
  }

  function DeviceName(id: nat): string {
    "ext4dev" + Decimal(id)
  }

  function MountPoint(id: nat): string {
    "/mp" + Decimal(id) + "/"
  }

  lemma DeviceNameInjective(i: nat, j: nat)
    ensures DeviceName(i) == DeviceName(j) <==> i == j
  {
    DecimalInjective(i, j);
    assert DeviceName(i)[7..] == Decimal(i) && DeviceName(j)[7..] == Decimal(j);
  }

  /** Up to the first delimiter, a text determines the word it starts with. */
  lemma DelimitedWord(a: string, b: string, rest: string, delimiter: char)
    requires delimiter !in a && delimiter !in b
    requires a + [delimiter] <= b + [delimiter] + rest
    ensures a == b
  {
    var l, r := a + [delimiter], b + [delimiter] + rest;
    assert forall k :: 0 <= k < |l| ==> l[k] == r[k];
    assert l[|a|] == delimiter && r[|b|] == delimiter && l[|a|] == r[|a|];
    if |a| < |b| {
      assert false;
    }
    assert |b| < |l| ==> l[|b|] == r[|b|];
    if |b| < |a| {
      assert false;
    }
    assert forall k :: 0 <= k < |a| ==> a[k] == l[k] && b[k] == r[k];
  }

  /** A mount point is a prefix of a text under another one only when the two are the same. */
  lemma MountPointPrefixIff(i: nat, j: nat, rest: string)
    ensures MountPoint(j) <= MountPoint(i) + rest <==> i == j
  {
    if MountPoint(j) <= MountPoint(i) + rest {
      var a, b := Decimal(j), Decimal(i);
      var l, r := a + "/", b + "/" + rest;
      assert MountPoint(j) == "/mp" + l && MountPoint(i) + rest == "/mp" + r;
      assert |l| <= |r|;
      forall k | 0 <= k < |l| ensures l[k] == r[k] {
        assert ("/mp" + l)[k + 3] == ("/mp" + r)[k + 3];
      }
      DelimitedWord(a, b, rest, '/');
      DecimalInjective(i, j);
    }
  }

  lemma MountPointInjective(i: nat, j: nat)
    ensures MountPoint(i) == MountPoint(j) <==> i == j
  {
    MountPointPrefixIff(i, j, "");
    assert MountPoint(i) + "" == MountPoint(i);
  }

  // ------------------------------------------------------------------------------------------
  // Paths

  datatype PathError = NulError

  /** `strip_prefix('/')`: at most one leading slash goes. */
  function StripSlash(path: string): string {
    if path != [] && path[0] == '/' then path[1..] else path
  }

  /** `make_path`: the full path handed to lwext4, or an error when it would contain a NUL. */
  function MakePath(mountPoint: string, path: string): Result<string, PathError> {
    var full := mountPoint + StripSlash(path);
    if '\0' in full then Err(NulError) else Ok(full)
  }

  lemma MakePathFailsIff(id: nat, path: string)
    ensures MakePath(MountPoint(id), path).Err? <==> '\0' in path
  {
    var full := MountPoint(id) + StripSlash(path);
    assert '\0' !in MountPoint(id);
    assert forall c :: c in full <==> c in MountPoint(id) || c in StripSlash(path);
    if path != [] {
      assert path == [path[0]] + path[1..];
    }
  }

  predicate Rooted(path: string) {
    path != [] && path[0] == '/'
  }

  /** `p` is `q` with one leading slash more, `q` having none. */
  predicate OneSlashMore(p: string, q: string) {
    p == "/" + q && !Rooted(q)
  }

  lemma StripSlashMeaning(p: string, q: string)
    ensures StripSlash(p) == StripSlash(q) <==> p == q || OneSlashMore(p, q) || OneSlashMore(q, p)
  {
    if Rooted(p) {
      assert p == "/" + p[1..];
      assert Rooted("/" + p[1..]);
    }
    if Rooted(q) {
      assert q == "/" + q[1..];
    }
  }

  /**
   * The full path is `/mp<id>` and the path, with a slash between them if the path has none. Full
   * paths lie under their own mount point and under no other, whatever the path contains. Two of
   * them are equal exactly on one mount, the paths being equal or one of them the other with a
   * leading slash added.
   */
  lemma MakePathSeparates(i: nat, j: nat, p: string, q: string)
    requires '\0' !in p && '\0' !in q
    ensures var full := MakePath(MountPoint(i), p);
            && full.Ok? && (MountPoint(j) <= full.value <==> i == j)
            && full.value == "/mp" + Decimal(i) + (if Rooted(p) then p else "/" + p)
    ensures MakePath(MountPoint(i), p) == MakePath(MountPoint(j), q)
            <==> i == j && (p == q || OneSlashMore(p, q) || OneSlashMore(q, p))
  {
    MakePathFailsIff(i, p);
    MakePathFailsIff(j, q);
    MountPointPrefixIff(i, j, StripSlash(p));
    StripSlashMeaning(p, q);
    assert Rooted(p) ==> p == "/" + p[1..];
    assert MountPoint(i) + StripSlash(p) == "/mp" + Decimal(i) + (if Rooted(p) then p else "/" + p);
    var x, y := MountPoint(i) + StripSlash(p), MountPoint(j) + StripSlash(q);
    if x == y {
      assert MountPoint(j) <= x;
      assert x[|MountPoint(i)|..] == StripSlash(p) && y[|MountPoint(j)|..] == StripSlash(q);
    }
  }

  /** Routing by scanning a mount table for the first name that is a prefix of the path. */
  function Route(table: seq<string>, path: string): (r: Option<string>)
    ensures r.Some? ==> r.value in table && r.value <= path
    ensures r.None? ==> forall k :: 0 <= k < |table| ==> !(table[k] <= path)
  {
    if table == [] then None
    else if table[0] <= path then Some(table[0])
    else Route(table[1..], path)
  }

  /**
   * Over a table of mount points of any ids in any order, a path made for mount `i` is routed to
   * mount `i` when that is in the table, and nowhere otherwise.
   */
  lemma RoutesHome(table: seq<string>, ids: seq<nat>, i: nat, path: string)
    requires |table| == |ids| && forall k :: 0 <= k < |table| ==> table[k] == MountPoint(ids[k])
    requires '\0' !in path
    ensures var full := MakePath(MountPoint(i), path);
            && full.Ok?
            && Route(table, full.value) == if i in ids then Some(MountPoint(i)) else None
  {
    MakePathSeparates(i, i, path, path);
    var full := MakePath(MountPoint(i), path).value;
    forall k | 0 <= k < |table| ensures table[k] <= full <==> ids[k] == i {
      MakePathSeparates(i, ids[k], path, path);
    }
    var r := Route(table, full);
    if i in ids {
      var k :| 0 <= k < |ids| && ids[k] == i;
      assert table[k] <= full;
    }
  }
}
