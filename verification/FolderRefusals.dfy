/**
  What create, update and delete refuse before the server is asked, in the terms of the stored rows:
  names, the parents rows name, and chains of such parents.
*/
module FolderRefusals {
  import opened Text
  import opened ParentGraph
  import opened FolderTable
  import opened FolderRepair
  import opened FolderOps

  /** A name that is blank, longer than a hundred characters, or holds a control character. */
  ghost predicate BadName(name: string) {
    var t := Trim(name, IsSpace);
    t == "" || |t| > 100 || exists c :: c in t && IsControl(c)
  }

  /** `f` stands below `p`: it names that row, or, for the top, no other row of the table. */
  ghost predicate StandsUnder(fs: seq<Folder>, f: Folder, p: Option<string>) {
    var named := f.parent.Some? && f.parent.value != f.token && exists g :: g in fs && Some(g.token) == f.parent;
    if p.None? then !named else named && f.parent == p
  }

  /** Below `p` this name is taken by a row other than `except`, or it is a system mailbox's at the top. */
  ghost predicate NameIsTaken(fs: seq<Folder>, p: Option<string>, name: string, except: Option<string>) {
    || (p.None? && Lower(name) in {"inbox", "sent", "drafts", "trash", "junk", "archive"})
    || exists f :: f in fs && Some(f.token) != except && StandsUnder(fs, f, p)
                   && Lower(Trim(f.name, IsSpace)) == Lower(name)
  }

  /** Rows that name each other as parents, from one below `p` or `p` itself up to the row `t`. */
  ghost predicate LeadsTo(fs: seq<Folder>, p: string, t: string) {
    exists c: seq<string> :: c != [] && c[0] == p && c[|c| - 1] == t
      && forall k :: 0 <= k < |c| - 1 ==> NamesParent(fs, c[k], c[k + 1])
  }

  ghost predicate NamesParent(fs: seq<Folder>, t: string, p: string) {
    t != p && exists f, g :: f in fs && g in fs && f.token == t && g.token == p && f.parent == Some(p)
  }

  lemma PlaceIff(fs: seq<Folder>, f: Folder, p: Option<string>)
    ensures StandsUnder(fs, f, p) <==> EffectiveParent(fs, f) == p
  {
  }

  lemma TakenIff(fs: seq<Folder>, p: Option<string>, name: string, except: Option<string>)
    ensures NameIsTaken(fs, p, name, except) <==> SiblingConflict(fs, p, name, except)
  {
    hide StandsUnder, EffectiveParent, Lower, Trim, SystemMailboxNamed;
    SystemMailboxNamedIff(name);
    forall f ensures StandsUnder(fs, f, p) <==> EffectiveParent(fs, f) == p { PlaceIff(fs, f, p); }
  }

  /** Exactly when a create is refused before the server is asked, and why. */
  lemma CreateRefusedIff(fs: seq<Folder>, name: string, parent: Option<string>, token: string, serverId: string)
    ensures var r := CreateCheck(fs, name, parent, token, serverId);
      if BadName(name) then r == Err(Invalid)
      else if parent.Some? && !exists g :: g in fs && Some(g.token) == parent then r == Err(ParentNotFound)
      else if NameIsTaken(fs, parent, Trim(name, IsSpace), None) then r == Err(AlreadyExists)
      else r.Ok?
  {
    hide NameIsTaken, SiblingConflict, Trim;
    TakenIff(fs, parent, Trim(name, IsSpace), None);
  }

  lemma {:induction false} ChainOfTokens(fs: seq<Folder>, p: string, t: string, k: nat) returns (c: seq<string>)
    requires DistinctTokens(fs) && Up(LiveParents(fs), p, k) == Some(t)
    ensures |c| == k + 1 && c[0] == p && c[k] == t && forall j :: 0 <= j < k ==> NamesParent(fs, c[j], c[j + 1])
    decreases k
  {
    hide LiveParents, NamesParent;
    c := [p];
    if k > 0 {
      LinkIff(fs, p, LiveParents(fs)[p]);
      var rest := ChainOfTokens(fs, LiveParents(fs)[p], t, k - 1);
      c := [p] + rest;
    }
  }

  lemma {:induction false} WalkOfTokens(fs: seq<Folder>, c: seq<string>)
    requires DistinctTokens(fs) && c != [] && forall j :: 0 <= j < |c| - 1 ==> NamesParent(fs, c[j], c[j + 1])
    ensures Up(LiveParents(fs), c[0], |c| - 1) == Some(c[|c| - 1])
    decreases |c|
  {
    hide LiveParents, NamesParent;
    if |c| > 1 {
      LinkIff(fs, c[0], c[1]);
      WalkOfTokens(fs, c[1..]);
    }
  }

  lemma LinkIff(fs: seq<Folder>, t: string, p: string)
    requires DistinctTokens(fs)
    ensures ParentOf(LiveParents(fs), t) == Some(p) <==> NamesParent(fs, t, p)
  {
    hide LiveParents;
    FollowLive(fs, t);
    if f :| f in fs && f.token == t {
      FindDistinct(fs, f);
    }
  }

  lemma LeadsIff(fs: seq<Folder>, p: string, t: string)
    requires DistinctTokens(fs)
    ensures LeadsTo(fs, p, t) <==> Reaches(LiveParents(fs), p, t)
  {
    hide LiveParents, NamesParent;
    if Reaches(LiveParents(fs), p, t) {
      var k: nat :| Up(LiveParents(fs), p, k) == Some(t);
      var c := ChainOfTokens(fs, p, t, k);
    }
    if LeadsTo(fs, p, t) {
      var c: seq<string> :| c != [] && c[0] == p && c[|c| - 1] == t
        && forall k :: 0 <= k < |c| - 1 ==> NamesParent(fs, c[k], c[k + 1]);
      WalkOfTokens(fs, c);
    }
  }

  /** Exactly when an update is refused before the server is asked, why, and when there is nothing to do. */
  lemma UpdateRefusedIff(fs: seq<Folder>, f: Folder, newName: Option<string>, newParent: Option<Option<string>>)
    requires DistinctTokens(fs) && f in fs
    ensures var r := UpdateCheck(fs, f.token, newName, newParent);
      var name := if newName.Some? then Trim(newName.value, IsSpace) else f.name;
      forall p :: (if newParent.Some? then p == newParent.value else StandsUnder(fs, f, p)) ==>
        if newName.Some? && BadName(newName.value) then r == Err(Invalid)
        else if p.Some? && !exists g :: g in fs && Some(g.token) == p then r == Err(ParentNotFound)
        else if p.Some? && LeadsTo(fs, p.value, f.token) then r == Err(Cycle)
        else if name == f.name && StandsUnder(fs, f, p) then r == Ok(None)
        else if NameIsTaken(fs, p, name, Some(f.token)) then r == Err(AlreadyExists)
        else r.Ok? && r.value.Some?
  {
    hide NameIsTaken, SiblingConflict, Trim, StandsUnder, EffectiveParent, LeadsTo, Reaches, LiveParents;
    FindDistinct(fs, f);
    var name := if newName.Some? then Trim(newName.value, IsSpace) else f.name;
    var p := if newParent.Some? then newParent.value else EffectiveParent(fs, f);
    forall q ensures StandsUnder(fs, f, q) <==> EffectiveParent(fs, f) == q { PlaceIff(fs, f, q); }
    TakenIff(fs, p, name, Some(f.token));
    if p.Some? { LeadsIff(fs, p.value, f.token); }
  }

  /** Exactly when a delete is refused before the server is asked, and why. */
  lemma DeleteRefusedIff(fs: seq<Folder>, t: string)
    ensures var r := DeleteCheck(fs, t);
      if !exists g :: g in fs && g.token == t then r == Err(NotFound)
      else if exists g :: g in fs && g.token != t && g.parent == Some(t) then r == Err(HasSubfolders)
      else r == Ok(Remove(t))
  {
  }

  lemma UnknownIsRefused(fs: seq<Folder>, t: string, newName: Option<string>, newParent: Option<Option<string>>)
    ensures UpdateCheck(fs, t, newName, newParent) == Err(NotFound) <==> !exists g :: g in fs && g.token == t
  {
    hide LiveParents, SiblingConflict;
  }
}
