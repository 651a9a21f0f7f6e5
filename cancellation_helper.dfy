/** The bridge from a cancellation token to an operation's abort action. It completes at most
    once, and it runs the abort action at most once in its lifetime. The token's callback
    thread is the caller of `Cancel`; the action itself is opaque and only its invocations
    are recorded. */
module Cancellation {
  import opened Base

  /** What the helper asks of a `CancellationToken`. */
  datatype Token = Token(canBeCanceled: bool, isCancellationRequested: bool)

  /** `CancellationHelper<T>`: `T` is the type of `Source`, `A` stands for the delegates that
      can be given as the abort action (`None` is a null delegate). */
  class CancellationHelper<T, A> {
    /** `Source`, `None` where the source leaves it at its default. */
    const source: Option<T>
    var isOperationCompleted: bool
    var cancelAction: Option<A>
    /** `_cancellationRegistration` holds a live registration of `Cancel` with the token. */
    var registered: bool
    /** The actions run so far, in order. */
    ghost var invoked: seq<A>

    /** Completion clears the action and the registration, and the action runs at most
        once. This much holds even inside `Cancel`, between running the action and
        completing. */
    ghost predicate Coherent()
      reads this
    {
      && (isOperationCompleted ==> cancelAction.None? && !registered)
      && |invoked| <= 1
    }

    /** Between calls, besides: an action still held has not run, and an action that has
        run was on the way to completion. */
    ghost predicate Valid()
      reads this
    {
      && Coherent()
      && (cancelAction.Some? ==> invoked == [])
      && (invoked != [] ==> isOperationCompleted)
    }

    /** A token that cannot be cancelled leaves the helper completed with nothing stored; an
        already cancelled one runs the action at once; otherwise `Cancel` is registered. */
    constructor (source: T, cancelAction: Option<A>, token: Token)
      ensures Valid()
      ensures !token.canBeCanceled ==>
        && isOperationCompleted && this.source == None && this.cancelAction == None
        && !registered && invoked == []
      ensures token.canBeCanceled && token.isCancellationRequested ==>
        && isOperationCompleted && this.source == Some(source) && this.cancelAction == None
        && !registered && invoked == (if cancelAction.Some? then [cancelAction.value] else [])
      ensures token.canBeCanceled && !token.isCancellationRequested ==>
        && !isOperationCompleted && this.source == Some(source) && this.cancelAction == cancelAction
        && registered && invoked == []
    {
      this.source := if token.canBeCanceled then Some(source) else None;
      isOperationCompleted := !token.canBeCanceled;
      this.cancelAction := if token.canBeCanceled then cancelAction else None;
      registered := false;
      invoked := [];
      new;
      if !token.canBeCanceled {
        return;
      }
      if token.isCancellationRequested {
        Cancel();
      } else {
        registered := true;
      }
    }

    /** Completes once: disposes the registration and drops the action. A second call
        changes nothing. */
    method SetOperationCompleted()
      requires Coherent()
      modifies this
      ensures Valid()
      ensures isOperationCompleted && cancelAction == None && !registered
      ensures invoked == old(invoked)
      ensures old(isOperationCompleted) ==> unchanged(this)
    {
      if isOperationCompleted {
        return;
      }
      registered := false;
      cancelAction := None;
      isOperationCompleted := true;
    }

    /** The token's callback: runs the action if one is still held, then completes. After
        completion there is no action left, so a late call runs nothing. */
    method Cancel()
      requires Valid()
      modifies this
      ensures Valid()
      ensures isOperationCompleted && cancelAction == None && !registered
      ensures invoked == old(invoked) + (if old(cancelAction).Some? then [old(cancelAction).value] else [])
      ensures old(isOperationCompleted) ==> unchanged(this)
    {
      if cancelAction.Some? {
        invoked := invoked + [cancelAction.value];
      }
      SetOperationCompleted();
    }
  }
}
