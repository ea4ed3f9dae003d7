/** The tag endpoints `add`, `sub` and `delete_tag`: each user owns a library
    mapping tag names to sets of pids, read from the tag store, changed and
    written back. */
module Tags {
  import opened Wrappers

  /** One user's library: tag name to the pids filed under it. */
  type Library = map<string, set<string>>

  /** `'all'` and `'null'` cannot be used as tag names. */
  predicate IsProtected(tag: string) {
    tag == "all" || tag == "null"
  }

  /** The library invariant the endpoints keep: no protected name and no empty tag. */
  predicate WellFormed(d: Library) {
    forall t :: t in d ==> !IsProtected(t) && d[t] != {}
  }

  /** `d[tag].add(pid)`, creating the tag when it is new. */
  function AddPid(d: Library, tag: string, pid: string): (r: Library)
    ensures r.Keys == d.Keys + {tag}
    ensures pid in r[tag]
    ensures tag in d ==> r[tag] == d[tag] + {pid}
    ensures tag !in d ==> r[tag] == {pid}
    ensures forall t :: t in d && t != tag ==> r[t] == d[t]
  {
    d[tag := (if tag in d then d[tag] else {}) + {pid}]
  }

  /** What removing a pid from a tag leads to. */
  datatype Removal =
    | TagMissing            // "user doesn't have the tag ..."
    | PaperMissing          // "user doesn't have paper ... in tag ..."
    | RemovedFrom(d: Library)

  /** `d[tag].remove(pid)`, deleting the tag when that empties it. */
  function RemovePid(d: Library, tag: string, pid: string): (r: Removal)
    ensures r.TagMissing? <==> tag !in d
    ensures r.PaperMissing? <==> tag in d && pid !in d[tag]
    ensures r.RemovedFrom? ==>
      && tag in d && pid in d[tag]
      && (tag in r.d <==> d[tag] != {pid})
      && r.d.Keys - {tag} == d.Keys - {tag}
      && (tag in r.d ==> r.d[tag] == d[tag] - {pid})
      && forall t :: t in d && t != tag ==> t in r.d && r.d[t] == d[t]
  {
    if tag !in d then TagMissing
    else if pid !in d[tag] then PaperMissing
    else
      var left := d[tag] - {pid};
      RemovedFrom(if |left| == 0 then d - {tag} else d[tag := left])
  }

  /** `del d[tag]`; `None` when the tag is absent. */
  function DropTag(d: Library, tag: string): (r: Option<Library>)
    ensures r.None? <==> tag !in d
    ensures r.Some? ==> r.value.Keys == d.Keys - {tag} && forall t :: t in r.value ==> r.value[t] == d[t]
  {
    if tag !in d then None else Some(d - {tag})
  }

  lemma AddPidKeepsWellFormed(d: Library, tag: string, pid: string)
    requires WellFormed(d) && !IsProtected(tag)
    ensures WellFormed(AddPid(d, tag, pid))
  {
  }

  lemma RemovePidKeepsWellFormed(d: Library, tag: string, pid: string)
    requires WellFormed(d) && RemovePid(d, tag, pid).RemovedFrom?
    ensures WellFormed(RemovePid(d, tag, pid).d)
  {
  }

  lemma DropTagKeepsWellFormed(d: Library, tag: string)
    requires WellFormed(d) && tag in d
    ensures WellFormed(DropTag(d, tag).value)
  {
  }

  /** Adding a pid that was not in the tag and removing it again restores the
      library; in particular a tag created by the add is pruned again. */
  lemma AddThenRemove(d: Library, tag: string, pid: string)
    requires WellFormed(d)
    requires tag !in d || pid !in d[tag]
    ensures RemovePid(AddPid(d, tag, pid), tag, pid) == RemovedFrom(d)
  {
    var a := AddPid(d, tag, pid);
    var left := a[tag] - {pid};
    if tag in d {
      assert left == d[tag];
      assert a[tag := left] == d;
    } else {
      assert left == {};
      assert a - {tag} == d;
    }
  }

  /** Adding the same pid twice is the same as adding it once. */
  lemma AddPidIdempotent(d: Library, tag: string, pid: string)
    ensures AddPid(AddPid(d, tag, pid), tag, pid) == AddPid(d, tag, pid)
  {
  }

  datatype AddReply =
    | AddNotLoggedIn       // "error, not logged in"
    | ProtectedAll         // "error, cannot add the protected tag 'all'"
    | ProtectedNull        // "error, cannot add the protected tag 'null'"
    | Added(d: Library)    // "ok: " followed by the user's library

  datatype SubReply =
    | SubNotLoggedIn                     // "error, not logged in"
    | NoLibrary                          // "user has no library of tags ..."
    | NoSuchTag(tag: string)             // "user doesn't have the tag <tag>"
    | NotInTag(pid: string, tag: string) // "user doesn't have paper <pid> in tag <tag>"
    | Removed(pid: string, tag: string)  // "ok removed pid <pid> from tag <tag>"

  datatype DeleteReply =
    | DeleteNotLoggedIn    // "error, not logged in"
    | NoLibraryToDelete    // "user does not have a library"
    | TagNotFound          // "user does not have this tag"
    | Deleted(d: Library)  // "ok: " followed by the user's library

  /** The tag store: user name to library. */
  class TagsDb {
    var libraries: map<string, Library>

    ghost predicate Valid()
      reads this
    {
      forall u :: u in libraries ==> WellFormed(libraries[u])
    }

    constructor ()
      ensures libraries == map[] && Valid()
    {
      libraries := map[];
    }

    /** The stored library of `user`, `{}` when there is none. */
    function LibraryOf(user: string): Library
      reads this
    {
      if user in libraries then libraries[user] else map[]
    }

    /** `/add/<pid>/<tag>` for the logged-in `user` (`None` when logged out). */
    method Add(user: Option<string>, pid: string, tag: string) returns (reply: AddReply)
      modifies this
      ensures user.None? ==> reply == AddNotLoggedIn && libraries == old(libraries)
      ensures user.Some? && tag == "all" ==> reply == ProtectedAll && libraries == old(libraries)
      ensures user.Some? && tag == "null" ==> reply == ProtectedNull && libraries == old(libraries)
      ensures user.Some? && !IsProtected(tag) ==>
        && libraries == old(libraries)[user.value := AddPid(old(LibraryOf(user.value)), tag, pid)]
        && reply == Added(libraries[user.value])
      ensures old(Valid()) ==> Valid()
    {
      if user.None? {
        return AddNotLoggedIn;
      }
      if tag == "all" {
        return ProtectedAll;
      } else if tag == "null" {
        return ProtectedNull;
      }
      var u := user.value;
      if u !in libraries {
        libraries := libraries[u := map[]];
      }
      var d := libraries[u];
      d := AddPid(d, tag, pid);
      libraries := libraries[u := d];
      reply := Added(d);
    }

    /** `/sub/<pid>/<tag>`: nothing is written back on any error. */
    method Sub(user: Option<string>, pid: string, tag: string) returns (reply: SubReply)
      modifies this
      ensures user.None? ==> reply == SubNotLoggedIn && libraries == old(libraries)
      ensures user.Some? && user.value !in old(libraries) ==> reply == NoLibrary && libraries == old(libraries)
      ensures user.Some? && user.value in old(libraries) ==>
        match RemovePid(old(libraries)[user.value], tag, pid)
        case TagMissing => reply == NoSuchTag(tag) && libraries == old(libraries)
        case PaperMissing => reply == NotInTag(pid, tag) && libraries == old(libraries)
        case RemovedFrom(d) => reply == Removed(pid, tag) && libraries == old(libraries)[user.value := d]
      ensures old(Valid()) ==> Valid()
    {
      if user.None? {
        return SubNotLoggedIn;
      }
      var u := user.value;
      if u !in libraries {
        return NoLibrary;
      }
      var d := libraries[u];
      match RemovePid(d, tag, pid)
      case TagMissing =>
        reply := NoSuchTag(tag);
      case PaperMissing =>
        reply := NotInTag(pid, tag);
      case RemovedFrom(d') =>
        if old(Valid()) {
          RemovePidKeepsWellFormed(d, tag, pid);
        }
        libraries := libraries[u := d'];
        reply := Removed(pid, tag);
    }

    /** `/del/<tag>`. */
    method DeleteTag(user: Option<string>, tag: string) returns (reply: DeleteReply)
      modifies this
      ensures user.None? ==> reply == DeleteNotLoggedIn && libraries == old(libraries)
      ensures user.Some? && user.value !in old(libraries) ==>
        reply == NoLibraryToDelete && libraries == old(libraries)
      ensures user.Some? && user.value in old(libraries) ==>
        match DropTag(old(libraries)[user.value], tag)
        case None => reply == TagNotFound && libraries == old(libraries)
        case Some(d) => reply == Deleted(d) && libraries == old(libraries)[user.value := d]
      ensures old(Valid()) ==> Valid()
    {
      if user.None? {
        return DeleteNotLoggedIn;
      }
      var u := user.value;
      if u !in libraries {
        return NoLibraryToDelete;
      }
      var d := libraries[u];
      if tag !in d {
        return TagNotFound;
      }
      d := d - {tag};
      libraries := libraries[u := d];
      reply := Deleted(d);
    }
  }
}
