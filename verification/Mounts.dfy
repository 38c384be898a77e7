/** The mount table and path lookup of the VFS, kernel/fs/vfs.c. */
module Mounts {
  import opened Machine
  import opened Blocks

  const MAX_MOUNTS := 8
  const MOUNTPOINT_MAX := 32
  const FSNAME_MAX := 16

  datatype Rc = Ok | InvalidParam | NoSpace | NotFound | NotSupported | Io | NoMount | BadFd

  /** Operations table and context of a mounted filesystem; PyFS knows its block device. */
  datatype Fs = NullFs | DevFs | PyFs(dev: Device)

  datatype Slot = Slot(used: bool, mountpoint: string, fsName: string, fs: Fs)

  /** `vfs_mountpoint_matches`; strings stand for the characters before the terminator. */
  predicate Matches(mountpoint: string, path: string) {
    if mountpoint == "/" then path != "" && path[0] == '/'
    else
      && mountpoint != ""
      && mountpoint <= path
      && (|path| == |mountpoint| || path[|mountpoint|] == '/')
  }

  /** A path splits at a mountpoint: this is what the path relative to it must satisfy. */
  predicate Splits(mountpoint: string, rel: string, path: string) {
    if mountpoint == "/" then path == "/" + rel
    else path == mountpoint + "/" + rel || (rel == "" && path == mountpoint)
  }

  /** A mountpoint matches exactly the paths that split at it on a component boundary. */
  lemma MatchesIffSplits(mountpoint: string, path: string)
    requires mountpoint != ""
    ensures Matches(mountpoint, path) <==> exists rel :: Splits(mountpoint, rel, path)
  {
    if Matches(mountpoint, path) {
      var n := |mountpoint|;
      if mountpoint == "/" {
        assert Splits(mountpoint, path[1..], path);
      } else if |path| == n {
        assert Splits(mountpoint, "", path);
      } else {
        assert path == path[..n] + [path[n]] + path[n + 1..];
        assert Splits(mountpoint, path[n + 1..], path);
      }
    }
    if rel :| Splits(mountpoint, rel, path) {
      assert mountpoint != "/" && path == mountpoint + "/" + rel ==> path[|mountpoint|] == '/';
    }
  }

  /** In path terms: the root covers everything, another mountpoint itself and what begins with it and a slash. */
  lemma MatchesMeans(mountpoint: string, path: string)
    requires mountpoint != "" && path != "" && path[0] == '/'
    ensures Matches(mountpoint, path) <==> mountpoint == "/" || path == mountpoint || mountpoint + "/" <= path
  {
    if Matches(mountpoint, path) && mountpoint != "/" && path != mountpoint {
      var n := |mountpoint|;
      assert path[..n] == mountpoint && path == path[..n] + [path[n]] + path[n + 1..];
    }
    if mountpoint + "/" <= path {
      assert path[|mountpoint|] == (mountpoint + "/")[|mountpoint|];
    }
  }

  /** What lookups see of a table: its used slots. */
  datatype Entry = Entry(mountpoint: string, fs: Fs)

  function Visible(slots: seq<Slot>): (v: seq<Option<Entry>>)
    ensures |v| == |slots|
  {
    seq(|slots|, i requires 0 <= i < |slots| =>
      if slots[i].used then Some(Entry(slots[i].mountpoint, slots[i].fs)) else None)
  }

  ghost predicate Distinct(v: seq<Option<Entry>>) {
    forall i, j :: 0 <= i < j < |v| && v[i].Some? && v[j].Some? ==> v[i].value.mountpoint != v[j].value.mountpoint
  }

  ghost predicate Rooted(v: seq<Option<Entry>>) {
    forall i :: 0 <= i < |v| && v[i].Some? ==>
      0 < |v[i].value.mountpoint| < MOUNTPOINT_MAX && v[i].value.mountpoint[0] == '/'
  }

  /** Entry `i` matches, and every other matching entry is strictly shorter. */
  ghost predicate Longest(v: seq<Option<Entry>>, path: string, i: nat) {
    && i < |v| && v[i].Some? && Matches(v[i].value.mountpoint, path)
    && (forall j :: 0 <= j < |v| && j != i && v[j].Some? && Matches(v[j].value.mountpoint, path) ==>
          |v[j].value.mountpoint| < |v[i].value.mountpoint|)
  }

  ghost predicate NoMatch(v: seq<Option<Entry>>, n: nat, path: string)
    requires n <= |v|
  {
    forall i :: 0 <= i < n && v[i].Some? ==> !Matches(v[i].value.mountpoint, path)
  }

  /** Two matching mountpoints of one length are equal. */
  lemma MatchingIsPrefix(m: string, n: string, path: string)
    requires Matches(m, path) && Matches(n, path) && |m| == |n|
    ensures m == n
  {
  }

  /** Lookup depends only on which entries are mounted, not on their order or slots. */
  lemma OrderIndependent(v: seq<Option<Entry>>, w: seq<Option<Entry>>, path: string, i: nat, j: nat)
    requires forall e: Entry :: Some(e) in v <==> Some(e) in w
    requires Longest(v, path, i) && Longest(w, path, j)
    ensures v[i] == w[j]
  {
  }

  /** A path splits at a mountpoint in exactly one way. */
  lemma SplitUnique(mountpoint: string, r: string, s: string, path: string)
    requires Splits(mountpoint, r, path) && Splits(mountpoint, s, path)
    ensures r == s
  {
    if mountpoint == "/" {
      assert path[1..] == r && path[1..] == s;
    } else if |path| == |mountpoint| {
    } else {
      assert path[|mountpoint| + 1..] == r;
      assert path[|mountpoint| + 1..] == s;
    }
  }

  class Table {
    const slots: array<Slot>

    ghost predicate Valid()
      reads this, slots
    {
      slots.Length == MAX_MOUNTS && Distinct(View()) && Rooted(View())
    }

    function View(): seq<Option<Entry>>
      reads this, slots
    {
      Visible(slots[..])
    }

    /** `vfs_init` */
    constructor ()
      ensures Valid() && fresh(slots) && View() == seq(MAX_MOUNTS, _ => None)
    {
      slots := new Slot[MAX_MOUNTS](_ => Slot(false, "", "", NullFs));
    }

    /** `vfs_find_mount`: the unique longest match on a component boundary. */
    method FindMount(path: string) returns (rc: Rc, index: nat, rel: string)
      requires Valid()
      ensures rc == InvalidParam <==> path == "" || path[0] != '/'
      ensures rc == NoMount <==> path != "" && path[0] == '/' && NoMatch(View(), MAX_MOUNTS, path)
      ensures rc == Ok || rc == InvalidParam || rc == NoMount
      ensures rc == Ok ==> Longest(View(), path, index) && Splits(View()[index].value.mountpoint, rel, path)
      ensures rc == NoMount ==> forall i :: 0 <= i < |View()| && View()[i].Some? ==>
                var m := View()[i].value.mountpoint; m != "/" && path != m && !(m + "/" <= path)
      ensures rc == Ok ==>
                && index < |View()| && View()[index].Some?
                && var mp := View()[index].value.mountpoint;
                && ((path == mp && rel == "" && mp != "/") || path == (if mp == "/" then "/" else mp + "/") + rel)
                && forall i :: 0 <= i < |View()| && View()[i].Some? ==>
                     var m := View()[i].value.mountpoint;
                     m == "/" || path == m || m + "/" <= path ==> |m| <= |mp|
    {
      index, rel := 0, "";
      if path == "" || path[0] != '/' {
        return InvalidParam, index, rel;
      }
      var best := -1;
      var bestLen := 0;
      ghost var v := View();
      for i := 0 to MAX_MOUNTS
        invariant best == -1 ==> bestLen == 0 && NoMatch(v, i, path)
        invariant best != -1 ==> 0 <= best < i && Longest(v[..i], path, best) && bestLen == |v[best].value.mountpoint|
      {
        if slots[i].used && Matches(slots[i].mountpoint, path) {
          assert v[i] == Some(Entry(slots[i].mountpoint, slots[i].fs));
          var mlen := |slots[i].mountpoint|;
          if best != -1 && mlen == bestLen {
            MatchingIsPrefix(v[i].value.mountpoint, v[best].value.mountpoint, path);
          }
          if mlen > bestLen {
            best := i;
            bestLen := mlen;
          }
        }
      }
      assert v[..MAX_MOUNTS] == v;
      forall i | 0 <= i < |v| && v[i].Some?
        ensures var m := v[i].value.mountpoint; Matches(m, path) <==> m == "/" || path == m || m + "/" <= path
      {
        MatchesMeans(v[i].value.mountpoint, path);
      }
      if best < 0 {
        return NoMount, index, rel;
      }
      if bestLen == 1 {
        rel := path[1..];
        assert v[best].value.mountpoint == "/";
      } else {
        rel := path[bestLen..];
        assert path == v[best].value.mountpoint + rel;
        if rel != "" && rel[0] == '/' {
          rel := rel[1..];
        }
      }
      return Ok, best, rel;
    }

    ghost predicate Taken(mountpoint: string)
      reads this, slots
    {
      exists i :: 0 <= i < |View()| && View()[i].Some? && View()[i].value.mountpoint == mountpoint
    }

    ghost predicate FullTable()
      reads this, slots
    {
      forall i :: 0 <= i < |View()| ==> View()[i].Some?
    }

    /**
      `vfs_mount`: success fills one unused slot; failure changes no lookup, even
      when the mountpoint was already copied into an unused slot.
     */
    method Mount(mountpoint: string, fsName: string, fs: Option<Fs>) returns (rc: Rc, ghost slot: nat)
      requires Valid()
      modifies slots
      ensures Valid()
      ensures rc == InvalidParam <==> fs.None? || mountpoint == "" || mountpoint[0] != '/' || old(Taken(mountpoint))
      ensures rc == NoSpace <==>
              && rc != InvalidParam
              && (old(FullTable()) || |mountpoint| >= 32 || |fsName| >= 16)
      ensures rc == Ok || rc == InvalidParam || rc == NoSpace
      ensures rc == Ok ==>
              && slot < MAX_MOUNTS && old(View())[slot].None?
              && View() == old(View())[slot := Some(Entry(mountpoint, fs.value))]
      ensures |View()| == 8 && (rc != Ok ==> View() == old(View()))
    {
      slot := 0;
      ghost var v := View();
      if fs.None? || mountpoint == "" || mountpoint[0] != '/' {
        return InvalidParam, slot;
      }
      for i := 0 to MAX_MOUNTS
        invariant forall j :: 0 <= j < i && v[j].Some? ==> v[j].value.mountpoint != mountpoint
      {
        if slots[i].used && slots[i].mountpoint == mountpoint {
          assert v[i] == Some(Entry(slots[i].mountpoint, slots[i].fs));
          return InvalidParam, slot;
        }
      }
      assert !Taken(mountpoint);
      for i := 0 to MAX_MOUNTS
        invariant forall j :: 0 <= j < i ==> v[j].Some?
        invariant View() == v
      {
        if !slots[i].used {
          slot := i;
          assert v[i].None?;
          if |mountpoint| >= MOUNTPOINT_MAX {
            return NoSpace, slot;
          }
          slots[i] := slots[i].(mountpoint := mountpoint);
          assert View() == v;
          if |fsName| >= FSNAME_MAX {
            return NoSpace, slot;
          }
          slots[i] := slots[i].(fsName := fsName);
          slots[i] := slots[i].(fs := fs.value);
          slots[i] := slots[i].(used := true);
          assert View() == v[i := Some(Entry(mountpoint, fs.value))];
          return Ok, slot;
        }
        assert v[i].Some?;
      }
      return NoSpace, slot;
    }
  }
}
