/**
 The credentials of access(): fs/open.c answers for the real ids, and skips making new credentials when they would
 equal the current ones.
 */
module AccessCreds {
  import opened Errno

  type Caps = set<nat>

  class Cred {
    var uid: nat
    var gid: nat
    var fsuid: nat
    var fsgid: nat
    var effective: Caps
    var permitted: Caps

    /** prepare_creds: a private copy. */
    constructor (c: Cred)
      ensures View() == c.View()
    {
      uid, gid, fsuid, fsgid := c.uid, c.gid, c.fsuid, c.fsgid;
      effective, permitted := c.effective, c.permitted;
    }

    function View(): Ids
      reads this
    {
      Ids(uid, gid, fsuid, fsgid, effective, permitted)
    }
  }

  datatype Ids = Ids(uid: nat, gid: nat, fsuid: nat, fsgid: nat, effective: Caps, permitted: Caps)

  /** What access() is to judge by: the real ids, with capabilities for the real root only. */
  function RealIds(c: Ids, noFixup: bool, root: nat): Ids {
    c.(fsuid := c.uid, fsgid := c.gid,
    effective := if noFixup then c.effective else if c.uid == root then c.permitted else {})
  }

  /** `noFixup` is SECURE_NO_SETUID_FIXUP, `root` the id of user 0 in the caller's namespace. */
  class Task {
    const noFixup: bool
    const root: nat
    var cred: Cred

    constructor (cred: Cred, noFixup: bool, root: nat)
      ensures this.cred == cred && this.noFixup == noFixup && this.root == root
    {
      this.cred, this.noFixup, this.root := cred, noFixup, root;
    }

    /** The fast path agrees with the slow one: an override is needed exactly when it would change something. */
    predicate NeedOverride(eaccess: bool)
      reads this, cred
      ensures NeedOverride(eaccess) <==> !eaccess && RealIds(cred.View(), noFixup, root) != cred.View()
    {
      if eaccess then false
      else if cred.fsuid != cred.uid || cred.fsgid != cred.gid then true
      else if !noFixup then
        if cred.uid != root then cred.effective != {} else cred.effective != cred.permitted
      else false
    }

    /** Installs the override as the current credentials and returns the previous ones, or null when out of memory. */
    method OverrideCreds(memory: bool) returns (previous: Cred?)
      modifies this
      ensures previous == (if memory then old(cred) else null)
      ensures !memory ==> cred == old(cred)
      ensures memory ==> fresh(cred) && cred.View() == RealIds(old(cred.View()), noFixup, root)
      ensures memory ==>
                && cred.fsuid == old(cred.uid) && cred.fsgid == old(cred.gid) && cred.uid == old(cred.uid) && cred.gid == old(cred.gid)
                && cred.permitted == old(cred.permitted)
                && (noFixup ==> cred.effective == old(cred.effective))
                && (!noFixup && cred.uid == root ==> cred.effective == cred.permitted)
                && (!noFixup && cred.uid != root ==> cred.effective == {})
    {
      if !memory {
        return null;
      }
      var o := new Cred(cred);
      o.fsuid := o.uid;
      o.fsgid := o.gid;
      if !noFixup {
        if o.uid != root {
          o.effective := {};
        } else {
          o.effective := o.permitted;
        }
      }
      previous := cred;
      cred := o;
    }

    /**
     do_faccessat after its argument checks, for any path walk and permission test `decide` that sees the current
     credentials. The caller's credentials are back in place on every return.
     */
    method Faccess(eaccess: bool, memory: bool, decide: Ids -> int) returns (res: int)
      modifies this
      ensures cred == old(cred) && cred.View() == old(cred.View())
      ensures var ids := if eaccess then cred.View() else RealIds(cred.View(), noFixup, root);
              res == if ids != cred.View() && !memory then -ENOMEM else decide(ids)
    {
      var previous: Cred? := null;
      if NeedOverride(eaccess) {
        previous := OverrideCreds(memory);
        if previous == null {
          return -ENOMEM;
        }
      }
      res := decide(cred.View());
      if previous != null {
        cred := previous;
      }
    }
  }
}
