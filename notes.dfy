/** The achievement list of `showAchievement`: a container of notification
    entries, newest first, holding at most five, each removed again by its
    own deferred expiry. Entries are told apart by a key the board hands out
    when it posts them, standing for the identity of the DOM element the
    expiry callback holds on to. */
module Notes {
  import Text

  /** One notification entry. */
  datatype Note = Note(key: nat, text: string)

  /** How many entries the list keeps when a new one is posted. */
  const MaxVisible: nat := 5

  /** The text that marks the page's initial "Complete your first task"
      placeholder entry. */
  const PlaceholderMarker: string := "Complete your first task"

  /** `placeholder.textContent.includes('Complete your first task')`: the
      marker occurs somewhere in the entry's text. */
  predicate IsPlaceholder(n: Note): (b: bool)
    ensures b <==> exists i :: Text.OccursAt(n.text, PlaceholderMarker, i)
  {
    Text.ContainsOccurs(n.text, PlaceholderMarker);
    Text.Contains(n.text, PlaceholderMarker)
  }

  /** The list with the first entry removed when it is the placeholder:
      only the first entry can go, only when it is the placeholder, and
      everything else stays in order. */
  function DropPlaceholder(l: seq<Note>): (r: seq<Note>)
    ensures |l| - 1 <= |r| <= |l| && r == l[|l| - |r|..]
    ensures |r| < |l| <==> l != [] && IsPlaceholder(l[0])
  {
    if l != [] && IsPlaceholder(l[0]) then l[1..] else l
  }

  /** The list after posting `n`: the placeholder, if it is the first entry,
      goes; `n` is inserted at the front; and if that makes more than five
      entries, the last (oldest) one is evicted. The entries kept keep their
      order, the ones lost are the oldest, and a list of at most five entries
      still has at most five. */
  function Push(l: seq<Note>, n: Note): (r: seq<Note>)
    ensures |r| >= 1 && r[0] == n
    ensures |l| <= MaxVisible ==> |r| <= MaxVisible
  {
    var b := DropPlaceholder(l);
    var c := [n] + b;
    if |c| > MaxVisible then c[..|c| - 1] else c
  }

  /** Behind the new entry come the entries that were there, minus the
      placeholder, in their order; only when that would make more than five
      is one dropped, and it is the oldest. */
  lemma PushKeepsOrder(l: seq<Note>, n: Note)
    ensures var b := DropPlaceholder(l);
      && |Push(l, n)| == (if |b| < MaxVisible then |b| + 1 else |b|)
      && forall k :: 1 <= k < |Push(l, n)| ==> Push(l, n)[k] == b[k - 1]
  {
  }

  /** The list after feeding `msgs` one by one to the posting step `post`,
      the entries getting the consecutive keys from `key` on. */
  function PostEach(post: (seq<Note>, Note) -> seq<Note>, l: seq<Note>, key: nat, msgs: seq<string>): seq<Note>
    decreases |msgs|
  {
    if msgs == [] then l else PostEach(post, post(l, Note(key, msgs[0])), key + 1, msgs[1..])
  }

  /** Feeding one batch and then another is feeding both in one go, the
      second batch getting the keys after the first's. */
  lemma {:induction false} PostEachAppend(post: (seq<Note>, Note) -> seq<Note>, l: seq<Note>, key: nat,
                                          a: seq<string>, b: seq<string>)
    ensures PostEach(post, l, key, a + b) == PostEach(post, PostEach(post, l, key, a), key + |a|, b)
    decreases |a|
  {
    if a == [] {
      assert a + b == b;
    } else {
      assert (a + b)[0] == a[0] && (a + b)[1..] == a[1..] + b;
      PostEachAppend(post, post(l, Note(key, a[0])), key + 1, a[1..], b);
    }
  }

  /** Posting keeps a list of at most five entries at most five long. */
  lemma {:induction false} PostEachBounded(l: seq<Note>, key: nat, msgs: seq<string>)
    requires |l| <= MaxVisible
    ensures |PostEach(Push, l, key, msgs)| <= MaxVisible
    decreases |msgs|
  {
    if msgs != [] {
      PostEachBounded(Push(l, Note(key, msgs[0])), key + 1, msgs[1..]);
    }
  }

  /** The list after posting each of `msgs` in order with `showAchievement`,
      the entries getting the consecutive keys from `key` on. A list of at
      most five entries still has at most five. */
  function PostAll(l: seq<Note>, key: nat, msgs: seq<string>): (r: seq<Note>)
    ensures |l| <= MaxVisible ==> |r| <= MaxVisible
  {
    if |l| <= MaxVisible then PostEachBounded(l, key, msgs); PostEach(Push, l, key, msgs)
    else PostEach(Push, l, key, msgs)
  }

  /** Posting nothing changes nothing, and posting one message is one
      `Push`. */
  lemma PostAllSingle(l: seq<Note>, key: nat, m: string)
    ensures PostAll(l, key, []) == l
    ensures PostAll(l, key, [m]) == Push(l, Note(key, m))
  {
    assert [m][0] == m && [m][1..] == [];
    assert PostEach(Push, l, key, [m]) == PostEach(Push, Push(l, Note(key, m)), key + 1, []);
  }

  /** After a non-empty batch the newest entry, in front, is the last
      message, under the last key handed out. */
  lemma {:induction false} PostAllNewest(l: seq<Note>, key: nat, msgs: seq<string>)
    requires msgs != []
    ensures PostAll(l, key, msgs) != []
    ensures PostAll(l, key, msgs)[0] == Note(key + |msgs| - 1, msgs[|msgs| - 1])
    decreases |msgs|
  {
    var first := Push(l, Note(key, msgs[0]));
    assert PostAll(l, key, msgs) == PostAll(first, key + 1, msgs[1..]);
    if |msgs| > 1 {
      PostAllNewest(first, key + 1, msgs[1..]);
      assert msgs[1..][|msgs| - 2] == msgs[|msgs| - 1];
    }
  }

  /** Posting one batch and then another is posting both in one go, the
      second batch getting the keys after the first's. */
  lemma PostAllAppend(l: seq<Note>, key: nat, a: seq<string>, b: seq<string>)
    ensures PostAll(l, key, a + b) == PostAll(PostAll(l, key, a), key + |a|, b)
  {
    PostEachAppend(Push, l, key, a, b);
  }

  /** The list after the expiry of the entry with `key`: that entry is gone
      if it was still there, every other entry stays in order, and an absent
      key changes nothing. */
  function Expired(l: seq<Note>, key: nat): (r: seq<Note>)
    ensures |r| <= |l|
    ensures forall k :: 0 <= k < |r| ==> r[k].key != key
    ensures (forall k :: 0 <= k < |l| ==> l[k].key != key) ==> r == l
  {
    if l == [] then []
    else (if l[0].key == key then [] else [l[0]]) + Expired(l[1..], key)
  }

  /** Keys tell entries apart. */
  predicate KeysDistinct(l: seq<Note>) {
    forall i, j :: 0 <= i < j < |l| ==> l[i].key != l[j].key
  }

  /** Every key in the list is below `bound`. */
  predicate KeysBelow(l: seq<Note>, bound: nat) {
    forall i :: 0 <= i < |l| ==> l[i].key < bound
  }

  /** Posting an entry with a key no entry has yet keeps the keys distinct. */
  lemma PushFresh(l: seq<Note>, n: Note, bound: nat)
    requires KeysDistinct(l) && KeysBelow(l, bound) && n.key == bound
    ensures KeysDistinct(Push(l, n)) && KeysBelow(Push(l, n), bound + 1)
  {
    var b := DropPlaceholder(l);
    assert KeysDistinct(b) && KeysBelow(b, bound);
    PushKeepsOrder(l, n);
  }

  /** With distinct keys, the expiry of the entry at `i` is exactly the
      removal of that one entry. */
  lemma {:induction false} ExpiredAt(l: seq<Note>, i: nat)
    requires KeysDistinct(l) && i < |l|
    ensures Expired(l, l[i].key) == l[..i] + l[i + 1..]
  {
    if i == 0 {
      assert forall k :: 0 <= k < |l[1..]| ==> l[1..][k].key != l[0].key by {
        forall k | 0 <= k < |l[1..]| ensures l[1..][k].key != l[0].key {
          assert l[1..][k] == l[k + 1];
        }
      }
    } else {
      assert KeysDistinct(l[1..]) by {
        forall a, b | 0 <= a < b < |l[1..]| ensures l[1..][a].key != l[1..][b].key {
          assert l[1..][a] == l[a + 1] && l[1..][b] == l[b + 1];
        }
      }
      ExpiredAt(l[1..], i - 1);
      assert l[1..][i - 1] == l[i];
      assert l[1..][..i - 1] + l[1..][i..] == l[1..i] + l[i + 1..];
    }
  }

  /** No entry of the list has key `x`. */
  predicate Avoids(l: seq<Note>, x: nat) {
    forall k :: 0 <= k < |l| ==> l[k].key != x
  }

  /** Expiry adds no key: a key absent before is absent after. */
  lemma {:induction false} ExpiredAvoids(l: seq<Note>, key: nat, x: nat)
    requires Avoids(l, x)
    ensures Avoids(Expired(l, key), x)
  {
    if l != [] {
      assert Avoids(l[1..], x) by {
        forall k | 0 <= k < |l[1..]| ensures l[1..][k].key != x {
          assert l[1..][k] == l[k + 1];
        }
      }
      ExpiredAvoids(l[1..], key, x);
    }
  }

  /** Expiry keeps the keys distinct and below the same bound. */
  lemma {:induction false} ExpiredKeepsKeys(l: seq<Note>, key: nat, bound: nat)
    requires KeysDistinct(l) && KeysBelow(l, bound)
    ensures KeysDistinct(Expired(l, key)) && KeysBelow(Expired(l, key), bound)
  {
    if l != [] {
      var tail := l[1..];
      assert KeysDistinct(tail) && KeysBelow(tail, bound) && Avoids(tail, l[0].key) by {
        assert forall k :: 0 <= k < |tail| ==> tail[k] == l[k + 1];
      }
      ExpiredKeepsKeys(tail, key, bound);
      ExpiredAvoids(tail, key, l[0].key);
    }
  }

  /** The index of the entry with `key`, or -1 when none has it. */
  function IndexOfKey(l: seq<Note>, key: nat): (r: int)
    ensures -1 <= r < |l|
    ensures r == -1 <==> forall k :: 0 <= k < |l| ==> l[k].key != key
    ensures 0 <= r ==> l[r].key == key
  {
    if l == [] then -1
    else if l[0].key == key then 0
    else
      var r := IndexOfKey(l[1..], key);
      assert forall k :: 1 <= k < |l| ==> l[k] == l[1..][k - 1];
      if r == -1 then -1 else r + 1
  }

  /** Expiry in terms of the position of the key: the entry there is
      spliced out, or nothing happens when no entry has the key. */
  lemma ExpiredByIndex(l: seq<Note>, key: nat, bound: nat)
    requires KeysDistinct(l) && KeysBelow(l, bound)
    ensures var i := IndexOfKey(l, key);
      Expired(l, key) == (if i >= 0 then l[..i] + l[i + 1..] else l)
    ensures KeysDistinct(Expired(l, key)) && KeysBelow(Expired(l, key), bound)
  {
    ExpiredKeepsKeys(l, key, bound);
    var i := IndexOfKey(l, key);
    if i >= 0 {
      ExpiredAt(l, i);
    }
  }

  /** The achievements container. */
  class Board {
    var notes: seq<Note>
    var nextKey: nat

    ghost predicate Valid()
      reads this
    {
      KeysDistinct(notes) && KeysBelow(notes, nextKey)
    }

    /** The container as the page markup fills it, one entry per message. */
    constructor (initial: seq<string>)
      ensures Valid() && nextKey == |initial| && |notes| == |initial|
      ensures forall i :: 0 <= i < |initial| ==> notes[i] == Note(i, initial[i])
    {
      notes := seq(|initial|, i requires 0 <= i < |initial| => Note(i, initial[i]));
      nextKey := |initial|;
    }

    /** `showAchievement(message)`: returns the key of the new entry, which
        its expiry is scheduled for. */
    method Post(message: string) returns (key: nat)
      requires Valid()
      modifies this
      ensures Valid()
      ensures key == old(nextKey) && nextKey == key + 1
      ensures notes == Push(old(notes), Note(key, message))
    {
      key := nextKey;
      PushFresh(notes, Note(key, message), key);
      if notes != [] && IsPlaceholder(notes[0]) {
        notes := notes[1..];
      }
      notes := [Note(key, message)] + notes;
      if |notes| > MaxVisible {
        notes := notes[..|notes| - 1];
      }
      nextKey := nextKey + 1;
    }

    /** The deferred expiry of the entry with `key`: removes it if it is
        still in the container, and does nothing otherwise. */
    method Expire(key: nat)
      requires Valid()
      modifies this
      ensures Valid() && nextKey == old(nextKey)
      ensures notes == Expired(old(notes), key)
    {
      var i := IndexOfKey(notes, key);
      ExpiredByIndex(notes, key, nextKey);
      if i >= 0 {
        notes := notes[..i] + notes[i + 1..];
      }
    }
  }
}
