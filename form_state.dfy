/**
 * The abstract state of the comment page that the form controller in
 * public/js/main.js works on, and the specification functions that say
 * what each of its operations computes.
 *
 * A text field of the form is its `name` attribute, its current value and
 * the index of the `.form-input` container it sits in; the container's
 * `input-error` class is a flag kept outside the field, so that two fields
 * in one container share that flag as they do in the page.  A displayed
 * comment is the user name, the content and whether it still carries the
 * `comment-hidden` class.
 */
module FormState {

  datatype Field = Field(name: string, value: string, container: nat)

  datatype Comment = Comment(userName: string, content: string, hidden: bool)

  /** The keys of the comment record built on submit; a field whose name is
      one of them is copied into the record and cleared. */
  const CommentKeys: set<string> := {NameKey, CommentKey}

  /** The record's key for the user name, and the `name` of its field. */
  const NameKey: string := "name"

  /** The record's key for the content, and the `name` of its field. */
  const CommentKey: string := "comment"

  /** Every field sits in one of the `n` containers. */
  predicate InRange(fs: seq<Field>, n: nat)
  {
    forall i :: 0 <= i < |fs| ==> fs[i].container < n
  }

  /** No two fields share a container. */
  predicate OwnContainers(fs: seq<Field>)
  {
    forall i, j :: 0 <= i < j < |fs| ==> fs[i].container != fs[j].container
  }

  /** The form is valid when no field holds exactly the empty string
      (a value of spaces only is valid). */
  predicate AllFilled(fs: seq<Field>)
  {
    forall i :: 0 <= i < |fs| ==> fs[i].value != ""
  }

  /** Field `i` is the last field of `fs` that sits in container `c`. */
  predicate LastIn(fs: seq<Field>, i: int, c: nat)
  {
    0 <= i < |fs| && fs[i].container == c &&
    forall j :: i < j < |fs| ==> fs[j].container != c
  }

  /** Field `i` is the last field of `fs` whose name is `key`. */
  predicate LastNamed(fs: seq<Field>, i: int, key: string)
  {
    0 <= i < |fs| && fs[i].name == key &&
    forall j :: i < j < |fs| ==> fs[j].name != key
  }

  // ---------------------------------------------------------------------
  // validateForm: the container flags after visiting the fields in order
  // ---------------------------------------------------------------------

  /** The container error flags after the fields of `fs` have been visited
      in order, each setting its container's flag to "value is empty". */
  function Marked(fs: seq<Field>, flags: seq<bool>): (r: seq<bool>)
    requires InRange(fs, |flags|)
    ensures |r| == |flags|
  {
    if fs == [] then flags
    else
      var last := fs[|fs| - 1];
      Marked(fs[..|fs| - 1], flags)[last.container := last.value == ""]
  }

  /** Validation leaves the flag of a container that holds no field as it
      was. */
  lemma {:induction false} MarkedUntouched(fs: seq<Field>, flags: seq<bool>, c: nat)
    requires InRange(fs, |flags|) && c < |flags|
    requires forall i :: 0 <= i < |fs| ==> fs[i].container != c
    ensures Marked(fs, flags)[c] == flags[c]
  {
    if fs != [] {
      var init := fs[..|fs| - 1];
      assert forall i :: 0 <= i < |init| ==> init[i] == fs[i];
      MarkedUntouched(init, flags, c);
    }
  }

  /** The flag of a container is decided by the last field visited in it:
      set when that field is empty, cleared otherwise, whatever the fields
      before it in the same container hold. */
  lemma {:induction false} MarkedLast(fs: seq<Field>, flags: seq<bool>, i: nat)
    requires InRange(fs, |flags|)
    requires i < |fs| && LastIn(fs, i, fs[i].container)
    ensures Marked(fs, flags)[fs[i].container] == (fs[i].value == "")
  {
    var n := |fs| - 1;
    if i < n {
      var init := fs[..n];
      assert forall j :: 0 <= j < |init| ==> init[j] == fs[j];
      MarkedLast(init, flags, i);
    }
  }

  /** When every field has a container of its own, validation flags exactly
      the containers of the empty fields and leaves every other container as
      it was. */
  lemma {:induction false} OwnContainersFlags(fs: seq<Field>, flags: seq<bool>)
    requires InRange(fs, |flags|) && OwnContainers(fs)
    ensures forall i :: 0 <= i < |fs| ==>
              Marked(fs, flags)[fs[i].container] == (fs[i].value == "")
    ensures forall c :: 0 <= c < |flags| && (forall i :: 0 <= i < |fs| ==> fs[i].container != c) ==>
              Marked(fs, flags)[c] == flags[c]
  {
    forall i | 0 <= i < |fs|
      ensures Marked(fs, flags)[fs[i].container] == (fs[i].value == "")
    {
      assert LastIn(fs, i, fs[i].container);
      MarkedLast(fs, flags, i);
    }
    forall c | 0 <= c < |flags| && (forall i :: 0 <= i < |fs| ==> fs[i].container != c)
      ensures Marked(fs, flags)[c] == flags[c]
    {
      MarkedUntouched(fs, flags, c);
    }
  }

  /** A submit with every field filled clears the flag of every field's
      container, whatever earlier submits left there; shared containers
      included. */
  lemma {:induction false} FilledClearsFlags(fs: seq<Field>, flags: seq<bool>)
    requires InRange(fs, |flags|) && AllFilled(fs)
    ensures forall i :: 0 <= i < |fs| ==> !Marked(fs, flags)[fs[i].container]
  {
    if fs != [] {
      var n := |fs| - 1;
      var init := fs[..n];
      assert InRange(init, |flags|) && AllFilled(init);
      FilledClearsFlags(init, flags);
      forall i | 0 <= i < |fs|
        ensures !Marked(fs, flags)[fs[i].container]
      {
        if i < n {
          assert init[i] == fs[i];
        }
      }
    }
  }

  /** Validating twice in a row leaves the same flags as validating once. */
  lemma {:induction false} MarkedIdempotent(fs: seq<Field>, flags: seq<bool>)
    requires InRange(fs, |flags|)
    ensures Marked(fs, Marked(fs, flags)) == Marked(fs, flags)
  {
    var once := Marked(fs, flags);
    var twice := Marked(fs, once);
    forall c | 0 <= c < |flags|
      ensures twice[c] == once[c]
    {
      if exists i :: 0 <= i < |fs| && fs[i].container == c {
        var i :| 0 <= i < |fs| && fs[i].container == c;
        var k := LastInFrom(fs, i, c);
        MarkedLast(fs, flags, k);
        MarkedLast(fs, once, k);
      } else {
        MarkedUntouched(fs, flags, c);
        MarkedUntouched(fs, once, c);
      }
    }
  }

  /** The last field in container `c`, found from any field `i` in it. */
  function LastInFrom(fs: seq<Field>, i: nat, c: nat): (k: nat)
    requires i < |fs| && fs[i].container == c
    ensures i <= k && LastIn(fs, k, c)
    decreases |fs| - i
  {
    if exists j :: i < j < |fs| && fs[j].container == c then
      var j :| i < j < |fs| && fs[j].container == c;
      LastInFrom(fs, j, c)
    else i
  }

  // ---------------------------------------------------------------------
  // showNewComment: the record read from the form and the cleared fields
  // ---------------------------------------------------------------------

  /** The value of the last field of `fs` named `key`, or the empty
      string when no field has that name; it is always the value of some
      field of that name, or empty. */
  function LastValue(fs: seq<Field>, key: string): (v: string)
    ensures v == "" || exists i :: 0 <= i < |fs| && fs[i].name == key && fs[i].value == v
  {
    if fs == [] then ""
    else if fs[|fs| - 1].name == key then fs[|fs| - 1].value
    else LastValue(fs[..|fs| - 1], key)
  }

  /** The record takes the value of the last field with the key's name,
      whatever fields of that name came before it. */
  lemma {:induction false} LastValueLast(fs: seq<Field>, key: string, i: nat)
    requires LastNamed(fs, i, key)
    ensures LastValue(fs, key) == fs[i].value
  {
    var n := |fs| - 1;
    if i < n {
      var init := fs[..n];
      assert forall j :: 0 <= j < n ==> init[j] == fs[j];
      LastValueLast(init, key, i);
    }
  }

  /** With no field of the key's name, the record keeps its initial empty
      string. */
  lemma {:induction false} LastValueNone(fs: seq<Field>, key: string)
    requires forall i :: 0 <= i < |fs| ==> fs[i].name != key
    ensures LastValue(fs, key) == ""
  {
    if fs != [] {
      var init := fs[..|fs| - 1];
      assert forall j :: 0 <= j < |init| ==> init[j] == fs[j];
      LastValueNone(init, key);
    }
  }

  /** A field after the copy-and-clear step: a field with a known key is
      emptied, any other field is left alone. */
  function Cleared(f: Field): (g: Field)
    ensures g.name == f.name && g.container == f.container
    ensures f.name in CommentKeys ==> g.value == ""
    ensures f.name !in CommentKeys ==> g == f
  {
    if f.name in CommentKeys then f.(value := "") else f
  }

  /** The fields after the copy-and-clear loop has visited all of them. */
  function ClearKnown(fs: seq<Field>): (r: seq<Field>)
    ensures |r| == |fs|
  {
    if fs == [] then []
    else ClearKnown(fs[..|fs| - 1]) + [Cleared(fs[|fs| - 1])]
  }

  /** Clearing keeps every field's name and container, empties exactly the
      fields named `name` or `comment`, and leaves every other field as it
      was. */
  lemma {:induction false} ClearKnownSpec(fs: seq<Field>)
    ensures forall i :: 0 <= i < |fs| ==>
              ClearKnown(fs)[i].name == fs[i].name &&
              ClearKnown(fs)[i].container == fs[i].container
    ensures forall i :: 0 <= i < |fs| && fs[i].name in CommentKeys ==>
              ClearKnown(fs)[i].value == ""
    ensures forall i :: 0 <= i < |fs| && fs[i].name !in CommentKeys ==>
              ClearKnown(fs)[i] == fs[i]
  {
    if fs != [] {
      var n := |fs| - 1;
      ClearKnownSpec(fs[..n]);
      assert forall i :: 0 <= i < n ==> ClearKnown(fs)[i] == ClearKnown(fs[..n])[i];
    }
  }

  /** Each field is cleared on its own. */
  lemma ClearKnownAt(fs: seq<Field>, i: nat)
    requires i < |fs|
    ensures ClearKnown(fs)[i] == Cleared(fs[i])
  {
    ClearKnownSpec(fs);
  }

  /** One more step of the copy-and-clear loop, on the fields: the loop's
      view of the fields (cleared so far, untouched from `i` on) changes
      only at `i`. */
  lemma ClearKnownStep(fs: seq<Field>, i: nat)
    requires i < |fs|
    ensures (ClearKnown(fs[..i]) + fs[i..])[i] == fs[i]
    ensures ClearKnown(fs[..i + 1]) + fs[i + 1..] ==
              (ClearKnown(fs[..i]) + fs[i..])[i := Cleared(fs[i])]
  {
    assert fs[..i + 1][..i] == fs[..i];
  }

  /** The comment record as the copy loop starts: both keys, both empty. */
  const EmptyRecord: map<string, string> := map[NameKey := "", CommentKey := ""]

  /** The comment record after the copy loop has visited the fields of
      `fs` in order: a field whose name is a key of the record overwrites
      that key's value, any other field is skipped, so the record never
      gains a key of its own. */
  function Record(fs: seq<Field>): (r: map<string, string>)
    ensures forall k :: k in r ==> k in CommentKeys
  {
    if fs == [] then EmptyRecord
    else
      var r := Record(fs[..|fs| - 1]);
      var f := fs[|fs| - 1];
      if f.name in r then r[f.name := f.value] else r
  }

  /** The record never gains or loses a key. */
  lemma {:induction false} RecordKeys(fs: seq<Field>)
    ensures Record(fs).Keys == CommentKeys
  {
    if fs != [] {
      RecordKeys(fs[..|fs| - 1]);
    }
  }

  /** One more step of the copy loop, on the record. */
  lemma RecordStep(fs: seq<Field>, i: nat)
    requires i < |fs|
    ensures fs[i].name in Record(fs[..i]) <==> fs[i].name in CommentKeys
    ensures Record(fs[..i + 1]) ==
              var r := Record(fs[..i]);
              if fs[i].name in r then r[fs[i].name := fs[i].value] else r
  {
    RecordKeys(fs[..i]);
    assert fs[..i + 1][..i] == fs[..i];
  }

  /** What the record holds after the loop: under each key, the value of the
      last field of that name, or the empty string when there is none. */
  lemma {:induction false} RecordHolds(fs: seq<Field>, key: string)
    requires key in CommentKeys
    ensures key in Record(fs) && Record(fs)[key] == LastValue(fs, key)
  {
    if fs != [] {
      RecordHolds(fs[..|fs| - 1], key);
    }
  }

  /** The comment that a successful submit shows: built from the record,
      and hidden until the entrance step. */
  function NewComment(fs: seq<Field>): (c: Comment)
    ensures c.hidden
    ensures c.userName == "" ||
              exists i :: 0 <= i < |fs| && fs[i].name == NameKey && fs[i].value == c.userName
    ensures c.content == "" ||
              exists i :: 0 <= i < |fs| && fs[i].name == CommentKey && fs[i].value == c.content
  {
    Comment(LastValue(fs, NameKey), LastValue(fs, CommentKey), true)
  }

  /** Clearing keeps every field in its container. */
  lemma {:induction false} ClearKnownInRange(fs: seq<Field>, n: nat)
    requires InRange(fs, n)
    ensures InRange(ClearKnown(fs), n)
  {
    ClearKnownSpec(fs);
  }

  /** After a success the form holds nothing for the record to read: a
      second submit straight away would build an empty record. */
  lemma {:induction false} ClearKnownEmptiesRecord(fs: seq<Field>, key: string)
    requires key in CommentKeys
    ensures LastValue(ClearKnown(fs), key) == ""
  {
    if fs != [] {
      var n := |fs| - 1;
      ClearKnownEmptiesRecord(fs[..n], key);
      assert ClearKnown(fs)[..n] == ClearKnown(fs[..n]);
    }
  }

  /** After a success, a form with a field named `name` or `comment` fails
      validation until that field is filled again. */
  lemma ClearedFormFails(fs: seq<Field>, i: nat)
    requires i < |fs| && fs[i].name in CommentKeys
    ensures !AllFilled(ClearKnown(fs))
  {
    ClearKnownAt(fs, i);
  }

  // ---------------------------------------------------------------------
  // The entrance step: the first hidden comment becomes visible
  // ---------------------------------------------------------------------

  predicate SomeHidden(cs: seq<Comment>)
  {
    exists i :: 0 <= i < |cs| && cs[i].hidden
  }

  /** The position of the first comment, in document order, that still
      carries the hidden class. */
  function FirstHidden(cs: seq<Comment>): (k: nat)
    requires SomeHidden(cs)
    ensures k < |cs| && cs[k].hidden
    ensures forall j :: 0 <= j < k ==> !cs[j].hidden
  {
    if cs[0].hidden then 0
    else
      assert SomeHidden(cs[1..]) by {
        var i :| 0 <= i < |cs| && cs[i].hidden;
        assert cs[1..][i - 1] == cs[i];
      }
      1 + FirstHidden(cs[1..])
  }

  /** The comment list after the entrance step: the first hidden comment is
      shown, and every comment keeps its text and its place. */
  function Revealed(cs: seq<Comment>): (r: seq<Comment>)
    requires SomeHidden(cs)
    ensures |r| == |cs| && !r[FirstHidden(cs)].hidden
    ensures forall i :: 0 <= i < |cs| ==>
              r[i].userName == cs[i].userName && r[i].content == cs[i].content
    ensures forall i :: 0 <= i < |cs| && i != FirstHidden(cs) ==> r[i] == cs[i]
  {
    var k := FirstHidden(cs);
    cs[k := cs[k].(hidden := false)]
  }

  /** The number of comments still hidden. */
  function CountHidden(cs: seq<Comment>): (n: nat)
    ensures n <= |cs|
    ensures n == 0 <==> !SomeHidden(cs)
  {
    if cs == [] then 0
    else
      assert forall i :: 1 <= i < |cs| ==> cs[1..][i - 1] == cs[i];
      (if cs[0].hidden then 1 else 0) + CountHidden(cs[1..])
  }

  /** The entrance step takes exactly one comment out of the hidden state. */
  lemma {:induction false} RevealedOne(cs: seq<Comment>)
    requires SomeHidden(cs)
    ensures CountHidden(Revealed(cs)) == CountHidden(cs) - 1
  {
    var r := Revealed(cs);
    var tail := cs[1..];
    if !cs[0].hidden {
      assert SomeHidden(tail) by {
        var i :| 0 <= i < |cs| && cs[i].hidden;
        assert tail[i - 1] == cs[i];
      }
      RevealedOne(tail);
      assert r[1..] == Revealed(tail);
    } else {
      assert r[1..] == tail;
    }
  }

  /** A successful submit puts one more comment in the hidden state, so the
      number of hidden comments counts the entrance steps still due. */
  lemma PrependHidden(c: Comment, cs: seq<Comment>)
    requires c.hidden
    ensures SomeHidden([c] + cs) && FirstHidden([c] + cs) == 0
    ensures CountHidden([c] + cs) == CountHidden(cs) + 1
  {
  }
}
