/** The render side of FlashMessage, stated on values: `format_message`, the
    rendering of one bucket, and what a `display` over a list of keys outputs
    and leaves in the namespace. */
module Rendering {
  import opened FlashTypes
  import opened Queue

  /** The wrapper template with its two slots filled. */
  function Fill(w: Template, cls: string, body: string): string {
    w.prefix + cls + w.middle + body + w.suffix
  }

  /** The class `css_class_map` gives type `t`; a missing entry reads as
      PHP's null, the empty string. */
  function TypeClass(s: Style, t: char): string {
    if [t] in s.classMap then s.classMap[[t]] else ""
  }

  /** The class slot: the message class, the type's class and, for a sticky
      message, the sticky class, separated by spaces. */
  function CssClass(s: Style, sticky: bool, t: char): string {
    s.msgClass + " " + TypeClass(s, t) + (if sticky then " " + s.stickyClass else "")
  }

  /** The part of the body slot before the message text: the close button
      (only for a message that is not sticky), then the before-decoration. */
  function Lead(s: Style, sticky: bool): string {
    (if sticky then "" else s.closeBtn) + s.before
  }

  /** `format_message`: one message of type `t` in the wrapper. The message
      text appears verbatim between a head fixed by the settings, the type and
      the stickiness, and a tail fixed by the settings. */
  function FormatMessage(s: Style, m: Msg, t: char): (r: string)
    ensures r == Head(s, m.sticky, t) + m.message + Tail(s)
  {
    var w := s.wrapper;
    var cls, lead := CssClass(s, m.sticky, t), Lead(s, m.sticky);
    assert w.prefix + cls + w.middle + (lead + m.message + s.after) + w.suffix
        == (w.prefix + cls + w.middle + lead) + m.message + (s.after + w.suffix);
    Fill(w, cls, lead + m.message + s.after)
  }

  /** Everything a formatted message of this type and stickiness has before
      the message text, and everything after it. */
  function Head(s: Style, sticky: bool, t: char): string {
    s.wrapper.prefix + CssClass(s, sticky, t) + s.wrapper.middle + Lead(s, sticky)
  }

  function Tail(s: Style): string {
    s.after + s.wrapper.suffix
  }

  /** The inverse of `FormatMessage` for a known type and stickiness: the
      message text, if `out` has the right head and tail. */
  function ExtractMessage(s: Style, sticky: bool, t: char, out: string): Option<string> {
    var head, tail := Head(s, sticky, t), Tail(s);
    if |head| + |tail| <= |out| && out[..|head|] == head && out[|out| - |tail|..] == tail
    then Some(out[|head|..|out| - |tail|])
    else None
  }

  /** The output of one bucket: its messages formatted in FIFO order
      (see `RenderBucketAppend` and `RenderBucketFifo`). */
  function RenderBucket(s: Style, msgs: seq<Msg>, t: char): (r: string)
    ensures msgs == [] ==> r == ""
    ensures |msgs| == 1 ==> r == FormatMessage(s, msgs[0], t)
    decreases |msgs|
  {
    if msgs == [] then ""
    else
      assert |msgs| == 1 ==> msgs[..0] == [];
      RenderBucket(s, msgs[..|msgs| - 1], t) + FormatMessage(s, msgs[|msgs| - 1], t)
  }

  /** A `display` that visits `visits` in order: each visited non-empty
      bucket is rendered and then removed, absent and empty buckets are
      skipped. Returns the raw output and the namespace left behind. */
  function Render(s: Style, b: Buckets, visits: seq<char>): (r: (string, Buckets))
    ensures r.1.Keys <= b.Keys
    ensures forall k :: k in r.1 ==> r.1[k] == b[k]
    decreases |visits|
  {
    if visits == [] then ("", b)
    else
      var t := visits[0];
      if t in b && b[t] != [] then
        var rest := Render(s, b - {t}, visits[1..]);
        (RenderBucket(s, b[t], t) + rest.0, rest.1)
      else Render(s, b, visits[1..])
  }

  /** One step of `Render`: visiting `visits[i]` first. */
  lemma RenderStep(s: Style, b: Buckets, visits: seq<char>, i: nat)
    requires i < |visits|
    ensures var t := visits[i];
      Render(s, b, visits[i..]) ==
        if t in b && b[t] != [] then
          (RenderBucket(s, b[t], t) + Render(s, b - {t}, visits[i + 1..]).0, Render(s, b - {t}, visits[i + 1..]).1)
        else Render(s, b, visits[i + 1..])
  {
    assert visits[i..][0] == visits[i] && visits[i..][1..] == visits[i + 1..];
  }

  /** The bookkeeping of one visit in `display`'s loop: if `output` plus what
      is left to render from `b` is the whole rendering, that stays so after
      the visit of `visits[i]`, which appends `shown` when that bucket is non-empty. */
  lemma RenderVisit(s: Style, start: Buckets, visits: seq<char>, i: nat, b: Buckets, output: string)
    requires i < |visits|
    requires Render(s, start, visits).0 == output + Render(s, b, visits[i..]).0
    requires Render(s, start, visits).1 == Render(s, b, visits[i..]).1
    ensures var t := visits[i];
      var (shown, next) := if t in b && b[t] != [] then (RenderBucket(s, b[t], t), b - {t}) else ("", b);
      Render(s, start, visits).0 == output + shown + Render(s, next, visits[i + 1..]).0 &&
      Render(s, start, visits).1 == Render(s, next, visits[i + 1..]).1
  {
    RenderStep(s, b, visits, i);
    var t := visits[i];
    if t in b && b[t] != [] {
      var shown, tail := RenderBucket(s, b[t], t), Render(s, b - {t}, visits[i + 1..]).0;
      assert output + (shown + tail) == output + shown + tail;
    } else {
      assert output + "" == output;
    }
  }

  /** The namespace `display` leaves: the buckets it did not visit, and the
      visited buckets that were already empty. */
  function Unvisited(b: Buckets, visits: seq<char>): Buckets {
    map k | k in b && (k !in visits || b[k] == []) :: b[k]
  }

  /** The output `display` produces when no key is visited twice: each
      visited bucket's rendering, in visit order. */
  function Concat(s: Style, b: Buckets, visits: seq<char>): string {
    if visits == [] then ""
    else (if visits[0] in b then RenderBucket(s, b[visits[0]], visits[0]) else "") + Concat(s, b, visits[1..])
  }

  predicate Distinct(visits: seq<char>) {
    forall i, j :: 0 <= i < j < |visits| ==> visits[i] != visits[j]
  }

  // ---------------------------------------------------------------------
  // Properties of formatting

  /** Formatting loses no message text: it can be read back. */
  lemma FormatMessageRoundTrip(s: Style, m: Msg, t: char)
    ensures ExtractMessage(s, m.sticky, t, FormatMessage(s, m, t)) == Some(m.message)
  {
    var head, tail := Head(s, m.sticky, t), Tail(s);
    var out := head + m.message + tail;
    assert out[..|head|] == head;
    assert out[|out| - |tail|..] == tail;
    assert out[|head|..|out| - |tail|] == m.message;
  }

  /** Whatever `ExtractMessage` reads back formats to the same output. */
  lemma ExtractMessageInverse(s: Style, sticky: bool, t: char, out: string)
    requires ExtractMessage(s, sticky, t, out).Some?
    ensures FormatMessage(s, Msg(sticky, ExtractMessage(s, sticky, t, out).value), t) == out
  {
    var x := ExtractMessage(s, sticky, t, out).value;
    var head, tail := Head(s, sticky, t), Tail(s);
    assert out == out[..|head|] + out[|head|..|out| - |tail|] + out[|out| - |tail|..];
  }

  /** A message that is not sticky carries the close button at the start of
      the body slot; a sticky one carries the sticky class and its output does
      not depend on the close button at all. */
  lemma CloseButtonOnlyWhenNotSticky(s: Style, m: Msg, t: char, otherBtn: string)
    ensures !m.sticky ==>
      var at := |s.wrapper.prefix| + |CssClass(s, false, t)| + |s.wrapper.middle|;
      at + |s.closeBtn| <= |FormatMessage(s, m, t)| &&
      FormatMessage(s, m, t)[at..at + |s.closeBtn|] == s.closeBtn
    ensures m.sticky ==>
      FormatMessage(s, m, t) == FormatMessage(s.(closeBtn := otherBtn), m, t) &&
      CssClass(s, true, t) == CssClass(s, false, t) + " " + s.stickyClass
  {
    if !m.sticky {
      var w := s.wrapper;
      var pre := w.prefix + CssClass(s, false, t) + w.middle;
      var out := FormatMessage(s, m, t);
      assert out == pre + s.closeBtn + (s.before + m.message + s.after + w.suffix);
      assert out[|pre|..|pre| + |s.closeBtn|] == s.closeBtn;
    }
  }

  /** With the default settings, `add("Saved!", "success")` displays as
      `<div class='alert dismissable alert-success'>Saved!</div>` plus a newline. */
  lemma DefaultSuccessExample()
    ensures FormatMessage(DefaultStyle, Msg(false, "Saved!"), 's')
         == "<div class='" + "alert dismissable alert-success" + "'>" + "Saved!" + "</div>\n"
  {
    assert ['s'] == "s";
    assert TypeClass(DefaultStyle, 's') == "alert-success";
    assert CssClass(DefaultStyle, false, 's') == "alert dismissable alert-success";
    assert Lead(DefaultStyle, false) + "Saved!" + "" == "Saved!";
  }

  // ---------------------------------------------------------------------
  // Properties of one bucket's rendering

  /** Rendering a bucket is rendering its parts one after the other. */
  lemma {:induction false} RenderBucketAppend(s: Style, a: seq<Msg>, c: seq<Msg>, t: char)
    ensures RenderBucket(s, a + c, t) == RenderBucket(s, a, t) + RenderBucket(s, c, t)
    decreases |c|
  {
    if c == [] {
      assert a + c == a;
    } else {
      var c' := c[..|c| - 1];
      assert (a + c)[..|a + c| - 1] == a + c';
      assert (a + c)[|a + c| - 1] == c[|c| - 1];
      RenderBucketAppend(s, a, c', t);
    }
  }

  /** FIFO: the oldest message is rendered first. */
  lemma RenderBucketFifo(s: Style, m: Msg, rest: seq<Msg>, t: char)
    ensures RenderBucket(s, [m] + rest, t) == FormatMessage(s, m, t) + RenderBucket(s, rest, t)
  {
    RenderBucketAppend(s, [m], rest, t);
    assert [m][..0] == [];
  }

  // ---------------------------------------------------------------------
  // Properties of display

  /** `display` removes exactly the visited non-empty buckets. */
  lemma {:induction false} RenderLeavesUnvisited(s: Style, b: Buckets, visits: seq<char>)
    ensures Render(s, b, visits).1 == Unvisited(b, visits)
    decreases |visits|
  {
    if visits != [] {
      var t := visits[0];
      var tl := visits[1..];
      assert forall k :: k in visits <==> k == t || k in tl;
      if t in b && b[t] != [] {
        RenderLeavesUnvisited(s, b - {t}, tl);
        assert Unvisited(b - {t}, tl) == Unvisited(b, visits);
      } else {
        RenderLeavesUnvisited(s, b, tl);
        assert Unvisited(b, tl) == Unvisited(b, visits);
      }
    }
  }

  /** Buckets `display` does not visit are kept as they are. */
  lemma RenderKeepsOthers(s: Style, b: Buckets, visits: seq<char>, k: char)
    requires k !in visits
    ensures k in Render(s, b, visits).1 <==> k in b
    ensures k in b ==> Render(s, b, visits).1[k] == b[k]
  {
    RenderLeavesUnvisited(s, b, visits);
  }

  /** A `display` that finds nothing to show outputs nothing and changes nothing. */
  lemma {:induction false} RenderNothing(s: Style, b: Buckets, visits: seq<char>)
    requires forall k :: k in visits && k in b ==> b[k] == []
    ensures Render(s, b, visits) == ("", b)
    decreases |visits|
  {
    if visits != [] {
      assert visits[0] in visits;
      assert forall k :: k in visits[1..] ==> k in visits;
      RenderNothing(s, b, visits[1..]);
    }
  }

  /** Consumption is exactly once: a second `display` of the same types
      outputs nothing and leaves the namespace as the first one left it. */
  lemma RenderTwice(s: Style, b: Buckets, visits: seq<char>)
    ensures var after := Render(s, b, visits).1;
      Render(s, after, visits) == ("", after)
  {
    RenderLeavesUnvisited(s, b, visits);
    RenderNothing(s, Render(s, b, visits).1, visits);
  }

  /** Removing a bucket that is not visited does not change the output. */
  lemma {:induction false} ConcatWithout(s: Style, b: Buckets, visits: seq<char>, t: char)
    requires t !in visits
    ensures Concat(s, b - {t}, visits) == Concat(s, b, visits)
    decreases |visits|
  {
    if visits != [] {
      assert visits[0] != t;
      assert forall k :: k in visits[1..] ==> k in visits;
      ConcatWithout(s, b, visits[1..], t);
    }
  }

  /** When no key is visited twice, the output is every visited bucket's
      rendering in visit order. */
  lemma {:induction false} RenderIsConcat(s: Style, b: Buckets, visits: seq<char>)
    requires Distinct(visits)
    ensures Render(s, b, visits).0 == Concat(s, b, visits)
    decreases |visits|
  {
    if visits != [] {
      var t := visits[0];
      var tl := visits[1..];
      assert Distinct(tl) by {
        forall i, j | 0 <= i < j < |tl| ensures tl[i] != tl[j] {
          assert tl[i] == visits[i + 1] && tl[j] == visits[j + 1];
        }
      }
      assert t !in tl by {
        forall i | 0 <= i < |tl| ensures tl[i] != t {
          assert tl[i] == visits[i + 1];
        }
      }
      if t in b && b[t] != [] {
        RenderIsConcat(s, b - {t}, tl);
        ConcatWithout(s, b, tl, t);
      } else {
        RenderIsConcat(s, b, tl);
      }
    }
  }

  /** Add then display: after queueing `m` under `k`, displaying `k` shows
      the older messages of that bucket and then `m`, and removes the bucket. */
  lemma EnqueueThenRender(s: Style, ns: Option<Buckets>, k: char, m: Msg)
    ensures Render(s, Enqueue(ns, k, m), [k]).0 == RenderBucket(s, Pending(ns, k), k) + FormatMessage(s, m, k)
    ensures Render(s, Enqueue(ns, k, m), [k]).1 == Current(ns) - {k}
  {
    var b := Enqueue(ns, k, m);
    RenderBucketAppend(s, Pending(ns, k), [m], k);
    assert [m][..0] == [];
    assert Render(s, b - {k}, []) == ("", b - {k});
    assert b - {k} == Current(ns) - {k};
  }

  /** `display()` with no argument on a well-keyed namespace leaves nothing
      for `has_messages()` or `has_errors()` to find. */
  lemma DisplayAllConsumesAll(s: Style, b: Buckets)
    requires WellKeyed(Some(b))
    ensures HasMessages(Some(Render(s, b, TypeOrder).1), None).None?
    ensures !HasErrors(Some(Render(s, b, TypeOrder).1))
  {
    RenderLeavesUnvisited(s, b, TypeOrder);
    var after := Render(s, b, TypeOrder).1;
    assert forall k :: k in after ==> after[k] == [] by {
      forall k | k in after ensures after[k] == [] {
        assert IsTypeKey(k);
        assert k in TypeOrder;
      }
    }
  }
}
