/**
 Deleting a document or folder on the documents screen. Deleting a
 folder also deletes everything found by walking down from it: its
 children (documents whose parent is the folder), and recursively the
 children of every child that is itself a folder. The walk is bounded by
 a depth `fuel`.
 */
module Documents {
  import opened Wrappers
  import opened Entities
  import opened Seqs

  function ChildTest(pid: string): DocumentFile -> bool {
    (d: DocumentFile) => d.parentId == Some(pid)
  }

  /** The documents directly inside folder `pid`, in list order. */
  function Children(docs: seq<DocumentFile>, pid: string): (r: seq<DocumentFile>)
    ensures forall d :: d in r <==> d in docs && d.parentId == Some(pid)
  {
    Filter(docs, ChildTest(pid))
  }

  /** The ids found below folder `pid`, in the walk's pre-order, at most
      `fuel` levels down. */
  function Below(docs: seq<DocumentFile>, pid: string, fuel: nat): (r: seq<string>)
    ensures fuel > 0 ==> forall d :: d in docs && d.parentId == Some(pid) ==> d.id in r
    decreases fuel, 0
  {
    if fuel == 0 then [] else Walk(docs, Children(docs, pid), fuel - 1)
  }

  /** Each of the siblings `cs` in turn: its id, then what lies below it
      when it is a folder. */
  function Walk(docs: seq<DocumentFile>, cs: seq<DocumentFile>, fuel: nat): (r: seq<string>)
    ensures forall i :: 0 <= i < |cs| ==> cs[i].id in r
    decreases fuel, 1, |cs|
  {
    if |cs| == 0 then []
    else [cs[0].id] + (if IsFolder(cs[0]) then Below(docs, cs[0].id, fuel) else []) + Walk(docs, cs[1..], fuel)
  }

  /** A downward path from folder `pid`: the first document sits in `pid`,
      each later one sits in its predecessor, and every document but the
      last is a folder. */
  predicate Chain(docs: seq<DocumentFile>, pid: string, ch: seq<DocumentFile>)
    decreases |ch|
  {
    && |ch| >= 1
    && ch[0] in docs
    && ch[0].parentId == Some(pid)
    && (|ch| > 1 ==> IsFolder(ch[0]) && Chain(docs, ch[0].id, ch[1..]))
  }

  /** Document id `k` ends a chain from `pid` of at most `fuel` steps. */
  ghost predicate Reaches(docs: seq<DocumentFile>, pid: string, fuel: nat, k: string) {
    exists ch: seq<DocumentFile> :: Chain(docs, pid, ch) && |ch| <= fuel && ch[|ch| - 1].id == k
  }

  lemma {:induction false} WalkSound(docs: seq<DocumentFile>, pid: string, cs: seq<DocumentFile>, fuel: nat, k: string)
    requires forall d :: d in cs ==> d in docs && d.parentId == Some(pid)
    requires k in Walk(docs, cs, fuel)
    ensures Reaches(docs, pid, fuel + 1, k)
    decreases fuel, 1, |cs|
  {
    var c := cs[0];
    var below := if IsFolder(c) then Below(docs, c.id, fuel) else [];
    var later := Walk(docs, cs[1..], fuel);
    assert Walk(docs, cs, fuel) == [c.id] + below + later;
    assert k == c.id || k in below || k in later;
    assert c in cs;
    if k == c.id {
      ChainStart(docs, pid, c);
    } else if k in below {
      BelowSound(docs, c.id, fuel, k);
      ChainExtend(docs, pid, c, fuel, k);
    } else {
      WalkSound(docs, pid, cs[1..], fuel, k);
    }
  }

  lemma ChainStart(docs: seq<DocumentFile>, pid: string, c: DocumentFile)
    requires c in docs && c.parentId == Some(pid)
    ensures Reaches(docs, pid, 1, c.id)
  {
    assert Chain(docs, pid, [c]);
  }

  /** A folder inside `pid` extends every chain from it by one step. */
  lemma ChainExtend(docs: seq<DocumentFile>, pid: string, c: DocumentFile, fuel: nat, k: string)
    requires c in docs && c.parentId == Some(pid) && IsFolder(c)
    requires Reaches(docs, c.id, fuel, k)
    ensures Reaches(docs, pid, fuel + 1, k)
  {
    var ch: seq<DocumentFile> :| Chain(docs, c.id, ch) && |ch| <= fuel && ch[|ch| - 1].id == k;
    var ch' := [c] + ch;
    assert ch'[0] == c && ch'[1..] == ch;
    assert Chain(docs, pid, ch');
    assert ch'[|ch'| - 1] == ch[|ch| - 1];
  }

  /** Everything the walk finds lies below `pid`. */
  lemma {:induction false} BelowSound(docs: seq<DocumentFile>, pid: string, fuel: nat, k: string)
    requires k in Below(docs, pid, fuel)
    ensures Reaches(docs, pid, fuel, k)
    decreases fuel, 0
  {
    var cs := Children(docs, pid);
    WalkSound(docs, pid, cs, fuel - 1, k);
  }

  /** The walk over siblings visits each sibling, and below each folder
      sibling. */
  lemma {:induction false} WalkVisits(docs: seq<DocumentFile>, cs: seq<DocumentFile>, fuel: nat, c: DocumentFile, k: string)
    requires c in cs
    requires k == c.id || (IsFolder(c) && k in Below(docs, c.id, fuel))
    ensures k in Walk(docs, cs, fuel)
    decreases |cs|
  {
    if cs[0] != c {
      assert c in cs[1..];
      WalkVisits(docs, cs[1..], fuel, c, k);
    }
  }

  /** Everything below `pid` within `fuel` levels is found. */
  lemma {:induction false} BelowComplete(docs: seq<DocumentFile>, pid: string, fuel: nat, ch: seq<DocumentFile>)
    requires Chain(docs, pid, ch) && |ch| <= fuel
    ensures ch[|ch| - 1].id in Below(docs, pid, fuel)
    decreases |ch|
  {
    var c := ch[0];
    assert c in Children(docs, pid);
    if |ch| == 1 {
      WalkVisits(docs, Children(docs, pid), fuel - 1, c, c.id);
    } else {
      var rest := ch[1..];
      assert rest[|rest| - 1] == ch[|ch| - 1];
      BelowComplete(docs, c.id, fuel - 1, rest);
      WalkVisits(docs, Children(docs, pid), fuel - 1, c, ch[|ch| - 1].id);
    }
  }

  /** The walk finds exactly the documents below `pid` within `fuel`
      levels. */
  lemma BelowIff(docs: seq<DocumentFile>, pid: string, fuel: nat, k: string)
    ensures k in Below(docs, pid, fuel) <==> Reaches(docs, pid, fuel, k)
  {
    if k in Below(docs, pid, fuel) {
      BelowSound(docs, pid, fuel, k);
    }
    if Reaches(docs, pid, fuel, k) {
      var ch: seq<DocumentFile> :| Chain(docs, pid, ch) && |ch| <= fuel && ch[|ch| - 1].id == k;
      BelowComplete(docs, pid, fuel, ch);
    }
  }

  /** The ids to delete for `target`: itself, then, for a folder,
      everything below it. */
  function DeleteIds(docs: seq<DocumentFile>, target: DocumentFile, fuel: nat): (r: seq<string>)
    ensures |r| >= 1 && r[0] == target.id
    ensures !IsFolder(target) ==> r == [target.id]
  {
    [target.id] + (if IsFolder(target) then Below(docs, target.id, fuel) else [])
  }

  /** Confirming the delete of `target`; `docs` is the screen's listing of
      the stored documents. */
  function DeleteDocument(m: map<string, DocumentFile>, docs: seq<DocumentFile>, target: DocumentFile,
                          fuel: nat): (r: map<string, DocumentFile>)
    ensures forall k :: k in r ==> k in m && r[k] == m[k]
  {
    RemoveAll(m, DeleteIds(docs, target, fuel))
  }

  /** A stored document survives exactly when it is neither the target nor,
      for a folder target, below it within `fuel` levels. */
  lemma DeleteDocumentKeys(m: map<string, DocumentFile>, docs: seq<DocumentFile>, target: DocumentFile,
                           fuel: nat, k: string)
    ensures k in DeleteDocument(m, docs, target, fuel) <==>
      k in m && k != target.id && !(IsFolder(target) && Reaches(docs, target.id, fuel, k))
  {
    RemoveAllKeys(m, DeleteIds(docs, target, fuel), k);
    BelowIff(docs, target.id, fuel, k);
  }

  /** A file (not a folder) is deleted alone, whatever claims it as
      parent. */
  lemma FileDeletedAlone(m: map<string, DocumentFile>, docs: seq<DocumentFile>, target: DocumentFile,
                         fuel: nat)
    requires !IsFolder(target)
    ensures DeleteDocument(m, docs, target, fuel) == Remove(m, target.id)
  {
    assert RemoveAll(m, [target.id]) == Remove(RemoveAll(m, []), target.id);
  }
}
