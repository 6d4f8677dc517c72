/**
 * The comment-form controller of public/js/main.js as a class over the
 * page state it reads and changes: the form's text fields, the
 * `input-error` flags of their containers, the error and success banners
 * of the form, and the comments shown under the heading of the comments
 * section, newest first.
 *
 * The two delayed callbacks the controller schedules (the entrance of a new
 * comment after 100 ms, the hiding of the success banner after 5000 ms) are
 * the methods RevealNewComment and HideFormSuccessMessage, which a caller
 * may run at any later point and in any order.
 */
module CommentController {
  import opened FormState

  class Page {
    /** The text inputs and text areas of the form, in document order. */
    var fields: seq<Field>
    /** The `input-error` flag of each `.form-input` container. */
    var containerError: seq<bool>
    /** The error banner carries `show-form-message`. */
    var errorShown: bool
    /** The success banner carries `show-form-message`. */
    var successShown: bool
    /** The comments that follow the heading of the comments section. */
    var comments: seq<Comment>
    /** The entrance steps scheduled by successful submits and not yet run. */
    ghost var pendingReveals: nat

    /** Every field sits in one of the page's containers, and each hidden
        comment has its entrance step still to come. */
    ghost predicate Valid()
      reads this
    {
      InRange(fields, |containerError|) && CountHidden(comments) == pendingReveals
    }

    /** The page as loaded: no container flagged, both banners hidden, and
        the comments the server rendered, none of them hidden. */
    constructor (fs: seq<Field>, containers: nat, initial: seq<Comment>)
      requires InRange(fs, containers)
      requires !SomeHidden(initial)
      ensures Valid()
      ensures fields == fs && comments == initial
      ensures containerError == seq(containers, _ => false)
      ensures !errorShown && !successShown
      ensures pendingReveals == 0
    {
      fields := fs;
      containerError := seq(containers, _ => false);
      errorShown := false;
      successShown := false;
      comments := initial;
      pendingReveals := 0;
    }

    /** The submit handler: validate, then either show the new comment or
        show the error banner. */
    method SubmitForm()
      requires Valid()
      modifies this
      ensures Valid()
      ensures containerError == Marked(old(fields), old(containerError))
      ensures AllFilled(old(fields)) ==>
                && fields == ClearKnown(old(fields))
                && !errorShown && successShown
                && comments == [NewComment(old(fields))] + old(comments)
                && pendingReveals == old(pendingReveals) + 1
      ensures !AllFilled(old(fields)) ==>
                && fields == old(fields)
                && errorShown && successShown == old(successShown)
                && comments == old(comments)
                && pendingReveals == old(pendingReveals)
    {
      var isValidated := ValidateForm();
      if isValidated {
        ShowNewComment();
      } else {
        ShowFormErrorMessage(false);
      }
    }

    /** Visits every field, with no early exit, setting its container's
        error flag when the value is exactly empty and clearing it
        otherwise; answers whether no field was empty. */
    method ValidateForm() returns (isValid: bool)
      requires Valid()
      modifies this`containerError
      ensures Valid()
      ensures isValid == AllFilled(fields)
      ensures containerError == Marked(fields, old(containerError))
      ensures OwnContainers(fields) ==>
                forall i :: 0 <= i < |fields| ==>
                  containerError[fields[i].container] == (fields[i].value == "")
      ensures OwnContainers(fields) ==>
                (isValid <==> forall i :: 0 <= i < |fields| ==> !containerError[fields[i].container])
    {
      isValid := true;
      var i := 0;
      while i < |fields|
        invariant 0 <= i <= |fields|
        invariant InRange(fields[..i], |old(containerError)|)
        invariant isValid == AllFilled(fields[..i])
        invariant containerError == Marked(fields[..i], old(containerError))
      {
        var c := fields[i].container;
        if fields[i].value == "" {
          containerError := containerError[c := true];
          isValid := false;
        } else {
          containerError := containerError[c := false];
        }
        assert fields[..i + 1][..i] == fields[..i];
        i := i + 1;
      }
      assert fields[..i] == fields;
      if OwnContainers(fields) {
        OwnContainersFlags(fields, old(containerError));
      }
    }

    /** The success path: hides the error banner, shows the success banner,
        reads the record from the form while clearing its fields, and puts
        the new comment, hidden, right after the heading. */
    method ShowNewComment()
      requires Valid()
      modifies this`errorShown, this`successShown, this`fields, this`comments,
        this`pendingReveals
      ensures Valid()
      ensures !errorShown && successShown
      ensures fields == ClearKnown(old(fields))
      ensures comments == [NewComment(old(fields))] + old(comments)
      ensures pendingReveals == old(pendingReveals) + 1
    {
      ShowFormErrorMessage(true);
      ShowFormSuccessMessage();
      ghost var before := fields;
      var commentData := CopyAndClearFields();
      RecordHolds(before, NameKey);
      RecordHolds(before, CommentKey);
      ClearKnownInRange(before, |containerError|);
      var newComment := Comment(commentData[NameKey], commentData[CommentKey], true);
      PrependHidden(newComment, comments);
      comments := [newComment] + comments;
      pendingReveals := pendingReveals + 1;
    }

    /** The loop of the success path: visits every field in order; a field
        whose name is a key of the comment record has its value copied into
        the record and is then emptied, any other field is skipped. */
    method CopyAndClearFields() returns (commentData: map<string, string>)
      modifies this`fields
      ensures fields == ClearKnown(old(fields))
      ensures commentData == Record(old(fields))
    {
      commentData := EmptyRecord;
      ghost var before := fields;
      var i := 0;
      while i < |fields|
        invariant 0 <= i <= |fields| == |before|
        invariant fields == ClearKnown(before[..i]) + before[i..]
        invariant commentData == Record(before[..i])
      {
        var key := fields[i].name;
        RecordStep(before, i);
        ClearKnownStep(before, i);
        if key in commentData {
          commentData := commentData[key := fields[i].value];
          fields := fields[i := fields[i].(value := "")];
        }
        i := i + 1;
      }
      assert before[..i] == before && before[i..] == [];
    }

    /** Shows the error banner, or hides it when asked to. */
    method ShowFormErrorMessage(actuallyHideItInstead: bool)
      modifies this`errorShown
      ensures errorShown == !actuallyHideItInstead
    {
      if actuallyHideItInstead {
        errorShown := false;
      } else {
        errorShown := true;
      }
    }

    /** Shows the success banner; its hiding is the separate step
        HideFormSuccessMessage. */
    method ShowFormSuccessMessage()
      modifies this`successShown
      ensures successShown
    {
      successShown := true;
    }

    /** The delayed hiding of the success banner, whatever happened since. */
    method HideFormSuccessMessage()
      modifies this`successShown
      ensures !successShown
    {
      successShown := false;
    }

    /** The delayed entrance of a new comment: the first comment of the
        section that is still hidden becomes visible.  It runs only as the
        step a successful submit scheduled, and then a hidden comment is
        always there to be found. */
    method RevealNewComment()
      requires Valid() && pendingReveals > 0
      modifies this`comments, this`pendingReveals
      ensures Valid()
      ensures SomeHidden(old(comments)) && comments == Revealed(old(comments))
      ensures pendingReveals == old(pendingReveals) - 1
    {
      var k := FirstHidden(comments);
      RevealedOne(comments);
      comments := comments[k := comments[k].(hidden := false)];
      pendingReveals := pendingReveals - 1;
    }
  }

  /** A submit with the comment left empty: refused, only the comment's
      container is flagged, the error banner shows, the name is kept and no
      comment is added. */
  method RejectedScenario()
  {
    var name := Field(NameKey, "Ada", 0);
    var comment := Field(CommentKey, "", 1);
    var shown := Comment("Meowtin", "Hi, there!", false);
    var page := new Page([name, comment], 2, [shown]);

    page.SubmitForm();
    assert !AllFilled([name, comment]) by {
      assert [name, comment][1].value == "";
    }
    assert page.fields == [name, comment];
    assert page.errorShown && !page.successShown;
    assert page.comments == [shown];
    OwnContainersFlags([name, comment], seq(2, _ => false));
    assert page.containerError[1] && !page.containerError[0];
  }

  /** A submit with both fields filled: accepted, the new comment leads the
      section hidden, both fields are empty, and the entrance step then shows
      that comment. */
  method AcceptedScenario()
  {
    var filled := [Field(NameKey, "Ada", 0), Field(CommentKey, "Hello", 1)];
    var shown := Comment("Meowtin", "Hi, there!", false);
    var page := new Page(filled, 2, [shown]);

    page.SubmitForm();
    LastValueLast(filled, NameKey, 0);
    LastValueLast(filled, CommentKey, 1);
    assert page.comments == [Comment("Ada", "Hello", true), shown];
    assert !page.errorShown && page.successShown;
    ClearKnownAt(filled, 0);
    ClearKnownAt(filled, 1);
    assert page.fields[0].value == "" && page.fields[1].value == "";

    assert page.comments[0].hidden;
    page.RevealNewComment();
    assert page.comments == [Comment("Ada", "Hello", false), shown];
  }
}
