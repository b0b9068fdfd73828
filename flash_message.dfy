/** The FlashMessage object: the session namespace it reads and writes, its
    presentation settings and its pending redirect URL, with the operations
    that change them in place. */
module Flash {
  import opened Text
  import opened FlashTypes
  import opened Queue
  import opened Rendering

  class FlashMessage {
    /** `$_SESSION['flash_messages']`; None when the namespace is unset. */
    var session: Option<Buckets>
    var msgWrapper: Template
    var msgBefore: string
    var msgAfter: string
    var closeBtn: string
    var stickyCssClass: string
    var msgCssClass: string
    var cssClassMap: map<string, string>
    /** `redirect_url`; None is PHP's null. */
    var redirectUrl: Option<string>

    /** The presentation settings, as `format_message` reads them. */
    function CurrentStyle(): Style
      reads this
    {
      Style(msgWrapper, msgBefore, msgAfter, closeBtn, stickyCssClass, msgCssClass, cssClassMap)
    }

    /** Every type has a CSS class, and the namespace holds only the four
        type buckets (`add` is the only code that creates buckets). */
    ghost predicate Valid()
      reads this
    {
      StyleValid(CurrentStyle()) && WellKeyed(session)
    }

    /** Under the invariant, the class lookup in `format_message` never
        misses: every bucket of the namespace has an entry in the class map. */
    lemma ClassLookupTotal(t: char)
      requires Valid() && session.Some? && t in session.value
      ensures [t] in cssClassMap && TypeClass(CurrentStyle(), t) == cssClassMap[[t]]
    {
      assert IsTypeKey(t);
      if t == FlashTypes.Error { assert [t] == "e"; }
      else if t == FlashTypes.Warning { assert [t] == "w"; }
      else if t == FlashTypes.Success { assert [t] == "s"; }
      else { assert [t] == "i"; }
    }

    /** `__construct`: keeps the namespace the session already holds, or
        creates it empty; every setting starts at its default. */
    constructor (existing: Option<Buckets>)
      requires WellKeyed(existing)
      ensures Valid()
      ensures session == Some(Current(existing))
      ensures CurrentStyle() == DefaultStyle && redirectUrl == None
    {
      if existing.None? {
        session := Some(map[]);
      } else {
        session := existing;
      }
      msgWrapper := Template("<div class='", "'>", "</div>\n");
      msgBefore := "";
      msgAfter := "";
      closeBtn := "";
      stickyCssClass := "sticky";
      msgCssClass := "alert dismissable";
      cssClassMap := map["i" := "alert-info", "s" := "alert-success", "w" := "alert-warning", "e" := "alert-danger"];
      redirectUrl := None;
    }

    /** `add`: an empty message is refused and nothing changes. Otherwise the
        message goes at the end of its normalised type's bucket, a given URL
        (even an empty one) replaces the pending one, and the call always ends
        in `do_redirect`. */
    method Add(message: string, msgType: string, redirect: Option<string>, sticky: bool) returns (r: AddOutcome)
      requires Valid()
      modifies this`session, this`redirectUrl
      ensures Valid()
      ensures CurrentStyle() == old(CurrentStyle())
      ensures message == "" ==> r == Rejected && session == old(session) && redirectUrl == old(redirectUrl)
      ensures message != "" ==>
        session == Some(Enqueue(old(session), AddKey(msgType), Msg(sticky, message))) &&
        redirectUrl == (if redirect.Some? then redirect else old(redirectUrl)) &&
        r == Halted(Finalize(redirectUrl))
    {
      if message == [] {
        return Rejected;
      }
      var t := msgType;
      if |Trim(t)| > 1 {
        t := [Lower(t[0])];
      }
      if !(|t| == 1 && IsTypeKey(t[0])) {
        t := [DefaultType];
      }
      var key := t[0];
      assert key == AddKey(msgType);
      var b := if session.Some? then session.value else map[];
      if key !in b {
        b := b[key := []];
      }
      CreateThenAppend(session, key, Msg(sticky, message));
      b := b[key := b[key] + [Msg(sticky, message)]];
      EnqueueKeepsWellKeyed(session, msgType, Msg(sticky, message));
      session := Some(b);
      if redirect.Some? {
        redirectUrl := redirect;
      }
      r := Halted(Finalize(redirectUrl));
    }

    /** `info`: `add` with the info type. */
    method Info(message: string, redirect: Option<string>, sticky: bool) returns (r: AddOutcome)
      requires Valid()
      modifies this`session, this`redirectUrl
      ensures Valid() && CurrentStyle() == old(CurrentStyle())
      ensures message == "" ==> r == Rejected && session == old(session) && redirectUrl == old(redirectUrl)
      ensures message != "" ==>
        session == Some(Enqueue(old(session), FlashTypes.Info, Msg(sticky, message))) &&
        redirectUrl == (if redirect.Some? then redirect else old(redirectUrl)) &&
        r == Halted(Finalize(redirectUrl))
    {
      r := Add(message, [FlashTypes.Info], redirect, sticky);
    }

    /** `success`: `add` with the success type. */
    method Success(message: string, redirect: Option<string>, sticky: bool) returns (r: AddOutcome)
      requires Valid()
      modifies this`session, this`redirectUrl
      ensures Valid() && CurrentStyle() == old(CurrentStyle())
      ensures message == "" ==> r == Rejected && session == old(session) && redirectUrl == old(redirectUrl)
      ensures message != "" ==>
        session == Some(Enqueue(old(session), FlashTypes.Success, Msg(sticky, message))) &&
        redirectUrl == (if redirect.Some? then redirect else old(redirectUrl)) &&
        r == Halted(Finalize(redirectUrl))
    {
      r := Add(message, [FlashTypes.Success], redirect, sticky);
    }

    /** `warning`: `add` with the warning type. */
    method Warning(message: string, redirect: Option<string>, sticky: bool) returns (r: AddOutcome)
      requires Valid()
      modifies this`session, this`redirectUrl
      ensures Valid() && CurrentStyle() == old(CurrentStyle())
      ensures message == "" ==> r == Rejected && session == old(session) && redirectUrl == old(redirectUrl)
      ensures message != "" ==>
        session == Some(Enqueue(old(session), FlashTypes.Warning, Msg(sticky, message))) &&
        redirectUrl == (if redirect.Some? then redirect else old(redirectUrl)) &&
        r == Halted(Finalize(redirectUrl))
    {
      r := Add(message, [FlashTypes.Warning], redirect, sticky);
    }

    /** `error`: `add` with the error type. */
    method Error(message: string, redirect: Option<string>, sticky: bool) returns (r: AddOutcome)
      requires Valid()
      modifies this`session, this`redirectUrl
      ensures Valid() && CurrentStyle() == old(CurrentStyle())
      ensures message == "" ==> r == Rejected && session == old(session) && redirectUrl == old(redirectUrl)
      ensures message != "" ==>
        session == Some(Enqueue(old(session), FlashTypes.Error, Msg(sticky, message))) &&
        redirectUrl == (if redirect.Some? then redirect else old(redirectUrl)) &&
        r == Halted(Finalize(redirectUrl))
    {
      r := Add(message, [FlashTypes.Error], redirect, sticky);
    }

    /** `sticky`: `add` with the sticky flag set and the type normalised as usual. */
    method Sticky(message: string, redirect: Option<string>, msgType: string) returns (r: AddOutcome)
      requires Valid()
      modifies this`session, this`redirectUrl
      ensures Valid() && CurrentStyle() == old(CurrentStyle())
      ensures message == "" ==> r == Rejected && session == old(session) && redirectUrl == old(redirectUrl)
      ensures message != "" ==>
        session == Some(Enqueue(old(session), AddKey(msgType), Msg(true, message))) &&
        redirectUrl == (if redirect.Some? then redirect else old(redirectUrl)) &&
        r == Halted(Finalize(redirectUrl))
    {
      r := Add(message, msgType, redirect, true);
    }

    /** `display`: false (None) when the namespace is unset. Otherwise the
        selected types are visited in order; each non-empty bucket is
        formatted in FIFO order into the output and then cleared. The whole
        output goes through the host's sanitizer once. */
    method Display(types: Selector, sanitize: string -> string) returns (r: Option<string>)
      requires Valid()
      modifies this`session
      ensures Valid()
      ensures CurrentStyle() == old(CurrentStyle()) && redirectUrl == old(redirectUrl)
      ensures old(session).None? ==> r.None? && session.None?
      ensures old(session).Some? ==>
        var (out, rest) := Render(CurrentStyle(), old(session).value, VisitOrder(types));
        r == Some(sanitize(out)) && session == Some(rest)
    {
      if session.None? {
        return None;
      }
      var visits := SelectTypes(types);
      var style := CurrentStyle();
      ghost var start := session.value;
      var output := "";
      assert visits[0..] == visits;
      assert output + Render(style, start, visits).0 == Render(style, start, visits).0;
      for i := 0 to |visits|
        invariant WellKeyed(session) && session.Some?
        invariant Render(style, start, visits).0 == output + Render(style, session.value, visits[i..]).0
        invariant Render(style, start, visits).1 == Render(style, session.value, visits[i..]).1
      {
        RenderVisit(style, start, visits, i, session.value, output);
        var shown := ConsumeType(style, visits[i]);
        output := output + shown;
      }
      assert visits[|visits|..] == [];
      assert output + "" == output;
      r := Some(sanitize(output));
    }

    /** One visit of `display`'s loop: a non-empty bucket of type `t` is
        formatted and then cleared; an absent or empty one is skipped. */
    method ConsumeType(style: Style, t: char) returns (shown: string)
      requires Valid() && session.Some?
      modifies this`session
      ensures Valid() && session.Some?
      ensures CurrentStyle() == old(CurrentStyle()) && redirectUrl == old(redirectUrl)
      ensures var b := old(session).value;
        if t in b && b[t] != [] then shown == RenderBucket(style, b[t], t) && session == Some(b - {t})
        else shown == "" && session == old(session)
    {
      var b := session.value;
      if t !in b || b[t] == [] {
        return "";
      }
      shown := FormatBucket(style, b[t], t);
      ClearOneKey(b, t);
      Clear(OneType([t]));
    }

    /** The type selection at the start of `display`: all four types in
        canonical order for a null, falsy or empty argument; for an array,
        each element's first character lower-cased, in the array's order; for
        a single name, its first character lower-cased. */
    static method SelectTypes(types: Selector) returns (visits: seq<char>)
      ensures visits == VisitOrder(types)
    {
      match types {
      case AllTypes =>
        visits := TypeOrder;
      case TypeList(names) =>
        if names == [] {
          visits := TypeOrder;
        } else {
          visits := [];
          assert names[..0] == [];
          for i := 0 to |names|
            invariant visits == Initials(names[..i])
          {
            InitialsStep(names, i);
            if names[i] != "" {
              visits := visits + [Lower(names[i][0])];
            }
          }
          assert names[..|names|] == names;
        }
      case OneType(name) =>
        visits := if IsFalsy(name) then TypeOrder else [Lower(name[0])];
      }
    }

    /** The inner loop of `display`: a bucket's messages formatted and
        concatenated in FIFO order. */
    static method FormatBucket(style: Style, msgs: seq<Msg>, t: char) returns (out: string)
      ensures out == RenderBucket(style, msgs, t)
    {
      out := "";
      for j := 0 to |msgs|
        invariant out == RenderBucket(style, msgs[..j], t)
      {
        assert msgs[..j + 1][..j] == msgs[..j];
        out := out + FormatMessage(style, msgs[j], t);
      }
      assert msgs[..|msgs|] == msgs;
    }

    /** `clear`: a null, empty or falsy argument unsets the whole namespace;
        otherwise each named bucket is unset and the rest are kept. */
    method Clear(types: Selector)
      requires Valid()
      modifies this`session
      ensures Valid()
      ensures session == Cleared(old(session), types)
      ensures CurrentStyle() == old(CurrentStyle()) && redirectUrl == old(redirectUrl)
    {
      var names: seq<string>;
      if ClearsAll(types) {
        session := None;
        names := [];
      } else if types.OneType? {
        names := [types.name];
      } else {
        names := types.types;
      }
      ghost var start := session;
      assert names[..0] == [];
      assert start.Some? ==> start.value - KeysNamed([]) == start.value;
      for i := 0 to |names|
        invariant start.None? ==> session == None
        invariant start.Some? ==> session == Some(start.value - KeysNamed(names[..i]))
      {
        if start.Some? {
          RemovalStep(start.value, names, i);
        }
        if |names[i]| == 1 && session.Some? {
          session := Some(session.value - {names[i][0]});
        }
      }
      assert names[..|names|] == names;
      if !ClearsAll(types) {
        ClearedIsRemoval(old(session), types, names);
      }
      ClearedKeepsWellKeyed(old(session), types);
    }

    /** `set_msg_wrapper`. */
    method SetMsgWrapper(wrapper: Template)
      requires Valid()
      modifies this`msgWrapper
      ensures Valid()
      ensures CurrentStyle() == old(CurrentStyle()).(wrapper := wrapper)
      ensures session == old(session) && redirectUrl == old(redirectUrl)
    {
      msgWrapper := wrapper;
    }

    /** `set_msg_before`. */
    method SetMsgBefore(before: string)
      requires Valid()
      modifies this`msgBefore
      ensures Valid()
      ensures CurrentStyle() == old(CurrentStyle()).(before := before)
      ensures session == old(session) && redirectUrl == old(redirectUrl)
    {
      msgBefore := before;
    }

    /** `set_msg_after`. */
    method SetMsgAfter(after: string)
      requires Valid()
      modifies this`msgAfter
      ensures Valid()
      ensures CurrentStyle() == old(CurrentStyle()).(after := after)
      ensures session == old(session) && redirectUrl == old(redirectUrl)
    {
      msgAfter := after;
    }

    /** `set_close_btn`. */
    method SetCloseBtn(button: string)
      requires Valid()
      modifies this`closeBtn
      ensures Valid()
      ensures CurrentStyle() == old(CurrentStyle()).(closeBtn := button)
      ensures session == old(session) && redirectUrl == old(redirectUrl)
    {
      closeBtn := button;
    }

    /** `set_sticky_css_class`. */
    method SetStickyCssClass(cssClass: string)
      requires Valid()
      modifies this`stickyCssClass
      ensures Valid()
      ensures CurrentStyle() == old(CurrentStyle()).(stickyClass := cssClass)
      ensures session == old(session) && redirectUrl == old(redirectUrl)
    {
      stickyCssClass := cssClass;
    }

    /** `set_msg_css_class`. */
    method SetMsgCssClass(cssClass: string)
      requires Valid()
      modifies this`msgCssClass
      ensures Valid()
      ensures CurrentStyle() == old(CurrentStyle()).(msgClass := cssClass)
      ensures session == old(session) && redirectUrl == old(redirectUrl)
    {
      msgCssClass := cssClass;
    }

    /** `set_css_class_map`: one type without a class changes nothing; one
        type with a class, or an array of pairs, is assigned pair by pair. */
    method SetCssClassMap(arg: ClassMapArg)
      requires Valid()
      modifies this`cssClassMap
      ensures Valid()
      ensures CurrentStyle() == old(CurrentStyle()).(classMap := ClassMapAfter(old(cssClassMap), arg))
      ensures session == old(session) && redirectUrl == old(redirectUrl)
    {
      var pairs: seq<(string, string)>;
      match arg {
      case OneClass(msgType, cssClass) =>
        if cssClass.None? {
          return;
        }
        pairs := [(msgType, cssClass.value)];
      case ClassPairs(ps) =>
        pairs := ps;
      }
      assert ClassMapAfter(cssClassMap, arg) == Merged(cssClassMap, pairs);
      ClassMapAfterKeepsValid(CurrentStyle(), arg);
      ghost var start := cssClassMap;
      assert pairs[..0] == [];
      for i := 0 to |pairs|
        invariant cssClassMap == Merged(start, pairs[..i])
      {
        MergedStep(start, pairs, i);
        cssClassMap := cssClassMap[pairs[i].0 := pairs[i].1];
      }
      assert pairs[..|pairs|] == pairs;
    }
  }
}
