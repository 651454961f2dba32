/**
 * The saved versions: a list, newest first, of snapshots of the article,
 * capped at ten entries by dropping the oldest.  Ids are the millisecond
 * clock at save time, so two saves in the same millisecond share an id.
 */
module Versions {
  import opened JsText
  import opened Document

  datatype Version = Version(id: int, title: string, content: string, author: string, timestamp: string)

  /** The most entries the list keeps after a save. */
  const MaxVersions: nat := 10

  /** The entry `saveVersion` builds: the clock value as id, the title or
      `未命名文章` when it is empty, and the display timestamp. */
  function NewVersion(a: Article, now: int, timestamp: string): Version
  {
    Version(now, DisplayTitle(a.title), a.text, a.author, timestamp)
  }

  /** `versions.unshift(v); if (versions.length > 10) versions.pop();` */
  function PushVersion(versions: seq<Version>, v: Version): seq<Version>
  {
    var w := [v] + versions;
    if |w| > MaxVersions then w[..|w| - 1] else w
  }

  /** The new entry comes first, the earlier ones follow in their order, and
      only the last of them is dropped, and only when the list had ten or more. */
  lemma PushVersionLayout(versions: seq<Version>, v: Version)
    ensures var r := PushVersion(versions, v);
      && |r| == (if |versions| < MaxVersions then |versions| + 1 else |versions|)
      && r[0] == v
      && r[1..] == versions[..|r| - 1]
  {
  }

  /** The first `n` entries of `s` (all of them when there are fewer). */
  function Take<T>(s: seq<T>, n: nat): (r: seq<T>)
    ensures |r| == if |s| < n then |s| else n
  {
    if |s| <= n then s else s[..n]
  }

  /** `s` in reverse order. */
  function Reverse<T>(s: seq<T>): (r: seq<T>)
    ensures |r| == |s|
  {
    if s == [] then [] else Reverse(s[1..]) + [s[0]]
  }

  /** The list after saving `saves` one after another, first to last. */
  function PushAll(versions: seq<Version>, saves: seq<Version>): seq<Version>
    decreases |saves|
  {
    if saves == [] then versions else PushAll(PushVersion(versions, saves[0]), saves[1..])
  }

  /** Starting from a list of at most ten entries, a run of saves leaves the
      ten most recent entries of "the saves, newest first, then the old list". */
  lemma {:induction false} PushAllKeepsNewest(versions: seq<Version>, saves: seq<Version>)
    requires |versions| <= MaxVersions
    ensures PushAll(versions, saves) == Take(Reverse(saves) + versions, MaxVersions)
    decreases |saves|
  {
    if saves == [] {
    } else {
      var next := PushVersion(versions, saves[0]);
      assert next == Take([saves[0]] + versions, MaxVersions);
      PushAllKeepsNewest(next, saves[1..]);
      assert Reverse(saves) == Reverse(saves[1..]) + [saves[0]];
      calc {
        PushAll(versions, saves);
        Take(Reverse(saves[1..]) + next, MaxVersions);
        { TakeAppendTake(Reverse(saves[1..]), [saves[0]] + versions); }
        Take(Reverse(saves[1..]) + ([saves[0]] + versions), MaxVersions);
        { assert Reverse(saves[1..]) + ([saves[0]] + versions) == Reverse(saves) + versions; }
        Take(Reverse(saves) + versions, MaxVersions);
      }
    }
  }

  lemma TakeAppendTake(a: seq<Version>, b: seq<Version>)
    ensures Take(a + Take(b, MaxVersions), MaxVersions) == Take(a + b, MaxVersions)
  {
    if |b| > MaxVersions {
      var t := b[..MaxVersions];
      if |a| >= MaxVersions {
        assert (a + t)[..MaxVersions] == a[..MaxVersions] == (a + b)[..MaxVersions];
      } else {
        assert (a + t)[..MaxVersions] == a + b[..MaxVersions - |a|] == (a + b)[..MaxVersions];
      }
    }
  }

  /** Saving eleven versions into an empty list keeps exactly the last ten,
      newest first. */
  lemma ElevenSavesKeepTen(saves: seq<Version>)
    requires |saves| == 11
    ensures PushAll([], saves) == Reverse(saves[1..])
  {
    PushAllKeepsNewest([], saves);
    assert Reverse(saves) == Reverse(saves[1..]) + [saves[0]];
    assert (Reverse(saves) + [])[..MaxVersions] == Reverse(saves[1..]);
  }

  /** `versions.filter(v => v.id !== id)`. */
  function RemoveVersions(versions: seq<Version>, id: int): seq<Version>
  {
    if versions == [] then []
    else if versions[0].id == id then RemoveVersions(versions[1..], id)
    else [versions[0]] + RemoveVersions(versions[1..], id)
  }

  /** The number of entries with a given id. */
  function CountId(versions: seq<Version>, id: int): nat
  {
    if versions == [] then 0 else (if versions[0].id == id then 1 else 0) + CountId(versions[1..], id)
  }

  /** Deleting removes every entry with the id (all of them when ids repeat)
      and no other, and the length drops by the number of entries removed. */
  lemma {:induction false} RemoveVersionsSpec(versions: seq<Version>, id: int)
    ensures forall k :: 0 <= k < |RemoveVersions(versions, id)| ==> RemoveVersions(versions, id)[k].id != id
    ensures forall v :: v in versions && v.id != id ==> v in RemoveVersions(versions, id)
    ensures forall v :: v in RemoveVersions(versions, id) ==> v in versions
    ensures |RemoveVersions(versions, id)| == |versions| - CountId(versions, id)
  {
    if versions != [] {
      RemoveVersionsSpec(versions[1..], id);
      assert forall v :: v in versions ==> v == versions[0] || v in versions[1..];
    }
  }

  /** The entries that stay keep their order: removal distributes over
      concatenation. */
  lemma {:induction false} RemoveVersionsAppend(versions: seq<Version>, more: seq<Version>, id: int)
    ensures RemoveVersions(versions + more, id) == RemoveVersions(versions, id) + RemoveVersions(more, id)
  {
    if versions == [] {
      assert versions + more == more;
    } else {
      RemoveVersionsAppend(versions[1..], more, id);
      assert (versions + more)[0] == versions[0] && (versions + more)[1..] == versions[1..] + more;
    }
  }

  /** Deleting an id that no entry has changes nothing. */
  lemma {:induction false} RemoveAbsentId(versions: seq<Version>, id: int)
    requires forall k :: 0 <= k < |versions| ==> versions[k].id != id
    ensures RemoveVersions(versions, id) == versions
  {
    if versions != [] {
      RemoveAbsentId(versions[1..], id);
    }
  }

  /** `versions.find(v => v.id === id)`: the first entry with the id. */
  function FindVersion(versions: seq<Version>, id: int): Option<Version>
  {
    if versions == [] then None
    else if versions[0].id == id then Some(versions[0])
    else FindVersion(versions[1..], id)
  }

  /** Find answers the first entry with the id, or nothing exactly when no
      entry has it. */
  lemma {:induction false} FindVersionSpec(versions: seq<Version>, id: int)
    ensures FindVersion(versions, id).None? <==> forall k :: 0 <= k < |versions| ==> versions[k].id != id
    ensures FindVersion(versions, id).Some? ==>
      exists k :: 0 <= k < |versions| && versions[k] == FindVersion(versions, id).value
        && versions[k].id == id && forall j :: 0 <= j < k ==> versions[j].id != id
  {
    if versions != [] && versions[0].id != id {
      FindVersionSpec(versions[1..], id);
      if FindVersion(versions, id).Some? {
        var k :| 0 <= k < |versions[1..]| && versions[1..][k] == FindVersion(versions, id).value
          && versions[1..][k].id == id && forall j :: 0 <= j < k ==> versions[1..][j].id != id;
        assert versions[k + 1] == versions[1..][k];
        assert forall j :: 1 <= j < k + 1 ==> versions[j] == versions[1..][j - 1];
      }
    }
  }

  /** The version just saved is what a restore of its id finds, even when an
      older entry shares the id. */
  lemma FindJustSaved(versions: seq<Version>, v: Version)
    ensures FindVersion(PushVersion(versions, v), v.id) == Some(v)
  {
  }

  /** After deleting an id, no restore of that id finds anything. */
  lemma FindAfterRemove(versions: seq<Version>, id: int)
    ensures FindVersion(RemoveVersions(versions, id), id).None?
  {
    RemoveVersionsSpec(versions, id);
    FindVersionSpec(RemoveVersions(versions, id), id);
  }
}
