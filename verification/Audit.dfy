/** src/core/compaudit_cache.c: the security verdict of a completion directory. */
module Audit {
  import opened Text

  const PATH_MAX := 4096
  const NO_UID: nat := 0xFFFF_FFFF

  /** The fields of struct stat the audit looks at; `mode` has only the bits of 07777. */
  datatype Stat = Stat(mode: nat, uid: nat, gid: nat, mtime: int, ctime: int) {
    predicate Sticky() { mode / 0x200 % 2 == 1 }
    predicate WorldWritable() { mode / 0x2 % 2 == 1 }
    predicate GroupWritable() { mode / 0x10 % 2 == 1 }

    /** The value ranges of mode_t, uid_t, gid_t and time_t. */
    predicate WellTyped() {
      mode < 0x1000 && uid <= NO_UID && gid <= NO_UID && LONG_MIN <= mtime <= LONG_MAX && LONG_MIN <= ctime <= LONG_MAX
    }
  }

  /** What readdir delivers; `complete` is false when it ends in an error. */
  datatype Listing = Listing(names: seq<string>, complete: bool)

  /** The audited file system: stat of every path that has one, the readable directories, the owner
      of /proc/self/exe if it can be found, and the effective user. */
  datatype World = World(stats: map<string, Stat>, listings: map<string, Listing>, exe: Option<nat>, self: nat) {
    ghost predicate WellTyped() {
      forall p :: p in stats ==> stats[p].WellTyped()
    }
  }

  /** root, the user and the owner of the shell may own a group-writable directory. */
  predicate Trusted(uid: nat, w: World) {
    uid == 0 || uid == w.self || (uid == w.exe.GetOr(0) && uid != NO_UID)
  }

  /** Open to others: writable by the world, or by the group of an untrusted owner, and not sticky. */
  predicate OwnInsecure(st: Stat, w: World) {
    !st.Sticky() && (st.WorldWritable() || (st.GroupWritable() && !Trusted(st.uid, w)))
  }

  /** The prefix of `path` before its slash at `i` is an insecure directory. */
  predicate InsecureAt(path: string, i: nat, w: World)
    requires i <= |path|
  {
    path[..i] in w.stats && OwnInsecure(w.stats[path[..i]], w)
  }

  /** Some proper ancestor, spelled as a slash-prefix of the path, is insecure. */
  predicate AncestorInsecure(path: string, w: World) {
    |path| < PATH_MAX && exists i :: 0 < i < |path| && path[i] == '/' && InsecureAt(path, i, w)
  }

  predicate ZwcFileInsecure(dir: string, name: string, w: World) {
    var full := dir + "/" + name;
    EndsWith(name, ".zwc")
    && (|full| >= PATH_MAX || full !in w.stats || w.stats[full].GroupWritable() || w.stats[full].WorldWritable())
  }

  /** The directory cannot be read to its end, or holds a compiled file others may write or hide. */
  predicate ZwcInsecure(dir: string, w: World) {
    dir !in w.listings || !w.listings[dir].complete
    || exists i :: 0 <= i < |w.listings[dir].names| && ZwcFileInsecure(dir, w.listings[dir].names[i], w)
  }

  predicate Insecure(path: string, w: World)
    requires path in w.stats
  {
    OwnInsecure(w.stats[path], w) || AncestorInsecure(path, w) || ZwcInsecure(path, w)
  }

  /** The rule on octal digits: without the sticky bit, others may not write, nor may the group unless the owner is
      root, the user or the owner of the shell. */
  lemma OwnInsecureDigits(st: Stat, special: nat, user: nat, group: nat, others: nat, w: World)
    requires st.mode == special * 512 + user * 64 + group * 8 + others
    requires special < 8 && user < 8 && group < 8 && others < 8 && st.uid != NO_UID
    ensures OwnInsecure(st, w)
       <==> special !in {1, 3, 5, 7}
            && (others in {2, 3, 6, 7}
                || (group in {2, 3, 6, 7} && st.uid != 0 && st.uid != w.self && Some(st.uid) != w.exe))
  {
    assert st.mode / 512 == special && st.mode / 16 == special * 32 + user * 4 + group / 2;
    assert st.mode / 2 == special * 256 + user * 32 + group * 4 + others / 2;
    OddDigit(special);
    SecondBit(group);
    SecondBit(others);
  }

  lemma OddDigit(d: nat)
    requires d < 8
    ensures d % 2 == 1 <==> d in {1, 3, 5, 7}
  {
  }

  lemma SecondBit(d: nat)
    requires d < 8
    ensures d / 2 % 2 == 1 <==> d in {2, 3, 6, 7}
  {
  }

  /** Every directory that the path goes through by name counts as an ancestor, and no other. */
  lemma AncestorIff(path: string, w: World)
    ensures AncestorInsecure(path, w)
       <==> |path| < 4096
            && exists dir, rest ::
                 path == dir + "/" + rest && dir != "" && dir in w.stats && OwnInsecure(w.stats[dir], w)
  {
    if dir, rest :| path == dir + "/" + rest && dir != "" && dir in w.stats && OwnInsecure(w.stats[dir], w) {
      assert path[..|dir|] == dir && path[|dir|] == '/' && InsecureAt(path, |dir|, w);
    }
    if i :| 0 < i < |path| && path[i] == '/' && InsecureAt(path, i, w) {
      assert path == path[..i] + "/" + path[i + 1..];
    }
  }

  /** A directory is bad for its compiled files exactly when it cannot be read to its end, or a .zwc file in it has
      too long a path, is not found, or may be written by the group or by others. */
  lemma ZwcInsecureIff(dir: string, w: World)
    ensures ZwcInsecure(dir, w)
       <==> dir !in w.listings || !w.listings[dir].complete
            || exists name :: name in w.listings[dir].names && EndsWith(name, ".zwc")
                 && (|dir + "/" + name| >= 4096 || dir + "/" + name !in w.stats
                     || w.stats[dir + "/" + name].mode / 16 % 2 == 1 || w.stats[dir + "/" + name].mode / 2 % 2 == 1)
  {
    if dir in w.listings {
      var names := w.listings[dir].names;
      if i :| 0 <= i < |names| && ZwcFileInsecure(dir, names[i], w) {
        assert names[i] in names;
      }
    }
  }

  // ------------------------------------------------------------- the program

  /** Index of the last slash, or none. */
  function LastSlash(s: string): (r: Option<nat>)
    ensures r.Some? ==> r.value < |s| && s[r.value] == '/' && '/' !in s[r.value + 1..]
    ensures r.None? ==> '/' !in s
  {
    if s == "" then None
    else if s[|s| - 1] == '/' then Some(|s| - 1)
    else
      var r := LastSlash(s[..|s| - 1]);
      assert s == s[..|s| - 1] + [s[|s| - 1]];
      assert r.Some? ==> s[r.value + 1..] == s[..|s| - 1][r.value + 1..] + [s[|s| - 1]];
      r
  }

  class Auditor {
    const world: World
    /** zp_cached_exe_owner: the static set on first use. */
    var exeOwner: nat

    predicate Valid()
      reads this
    {
      exeOwner == NO_UID || exeOwner == world.exe.GetOr(0)
    }

    constructor (w: World)
      ensures Valid() && world == w
    {
      world, exeOwner := w, NO_UID;
    }

    /** zp_cc_discover_exe_owner. */
    method DiscoverExeOwner()
      requires Valid()
      modifies this
      ensures Valid() && exeOwner == world.exe.GetOr(0)
    {
      if exeOwner != NO_UID {
        return;
      }
      match world.exe
      case Some(uid) => exeOwner := uid;
      case None => exeOwner := 0;
    }

    /** zp_cc_is_insecure with zp_cc_owner_allowed. */
    method IsInsecure(st: Stat) returns (insecure: bool)
      requires Valid()
      modifies this
      ensures Valid() && insecure == OwnInsecure(st, world)
    {
      DiscoverExeOwner();
      var sticky, worldW, groupW := st.Sticky(), st.WorldWritable(), st.GroupWritable();
      var allowedOwner := false;
      if st.uid == 0 || st.uid == world.self {
        allowedOwner := true;
      } else if exeOwner != NO_UID && st.uid == exeOwner {
        allowedOwner := true;
      }
      if !allowedOwner {
        if (worldW && !sticky) || (groupW && !sticky) {
          return true;
        }
      } else {
        if worldW && !sticky {
          return true;
        }
      }
      return false;
    }

    /** parent_insecure_path: the buffer is cut at its last slash until none is left past the start. */
    method ParentInsecurePath(path: string) returns (insecure: bool)
      requires Valid()
      modifies this
      ensures Valid() && insecure == AncestorInsecure(path, world)
    {
      if |path| >= PATH_MAX {
        return false;
      }
      var buf := path;
      while true
        invariant Valid() && buf <= path
        invariant forall i :: |buf| <= i < |path| && 0 < i && path[i] == '/' ==> !InsecureAt(path, i, world)
        decreases |buf|
      {
        var slash := LastSlash(buf);
        if slash.None? || slash.value == 0 {
          NoMoreSlashes(path, buf);
          return false;
        }
        SlashesFrom(path, buf, slash.value);
        buf := buf[..slash.value];
        if buf in world.stats {
          var bad := IsInsecure(world.stats[buf]);
          if bad {
            assert InsecureAt(path, slash.value, world);
            return true;
          }
        }
        assert !InsecureAt(path, slash.value, world);
      }
    }

    /** zp_cc_zwc_insecure: the readdir loop over the compiled files. */
    method ZwcInsecureScan(directory: string) returns (insecure: bool)
      ensures insecure == ZwcInsecure(directory, world)
    {
      if directory !in world.listings {
        return true;
      }
      var names := world.listings[directory].names;
      for i := 0 to |names|
        invariant forall j :: 0 <= j < i ==> !ZwcFileInsecure(directory, names[j], world)
      {
        if !EndsWith(names[i], ".zwc") {
          continue;
        }
        var full := directory + "/" + names[i];
        if |full| >= PATH_MAX || full !in world.stats
           || world.stats[full].GroupWritable() || world.stats[full].WorldWritable() {
          return true;
        }
      }
      return !world.listings[directory].complete;
    }

    /** The three tests together, as zp_cc_rebuild and zp_cc_incremental_update combine them. */
    method AuditPath(path: string) returns (verdict: bool, parent: bool, zwc: bool)
      requires Valid() && path in world.stats
      modifies this
      ensures Valid() && verdict == Insecure(path, world)
      ensures parent == AncestorInsecure(path, world) && zwc == ZwcInsecure(path, world)
    {
      verdict := IsInsecure(world.stats[path]);
      parent := ParentInsecurePath(path);
      zwc := ZwcInsecureScan(path);
      if parent || zwc {
        verdict := true;
      }
    }
  }

  lemma NoMoreSlashes(path: string, buf: string)
    requires buf <= path && (LastSlash(buf).None? || LastSlash(buf).value == 0)
    ensures forall i :: 0 < i < |path| && path[i] == '/' ==> |buf| <= i
  {
    forall i | 0 < i < |buf|
      ensures path[i] != '/'
    {
      assert buf[i] == path[i];
      if LastSlash(buf).Some? {
        assert buf[1..][i - 1] == buf[i];
      }
    }
  }

  lemma SlashesFrom(path: string, buf: string, k: nat)
    requires buf <= path && LastSlash(buf) == Some(k)
    ensures buf[..k] == path[..k] && path[k] == '/'
    ensures forall i :: k < i < |buf| ==> path[i] != '/'
  {
    forall i | k < i < |buf|
      ensures path[i] != '/'
    {
      assert buf[k + 1..][i - (k + 1)] == buf[i];
    }
  }
}
