/** The meaning of the tag stack: a sequence of open and close events leaves
    the stack empty, without an error, exactly when it is the rendering of a
    forest of properly nested elements. This is the reference definition the
    validator's stack machine is proved against. */
module Nesting {
  import opened Wrappers

  datatype Event = Open(name: string) | Close(name: string)

  /** The stack discipline: opening pushes, closing must pop the same name. */
  function Run(evs: seq<Event>, stack: seq<string>): Option<seq<string>>
    decreases |evs|
  {
    if evs == [] then Some(stack)
    else
      var n := evs[0].name;
      if evs[0].Open? then Run(evs[1..], stack + [n])
      else if stack != [] && stack[|stack| - 1] == n then Run(evs[1..], stack[..|stack| - 1])
      else None
  }

  datatype Element = Element(name: string, children: seq<Element>)

  /** The events of a forest written out in document order. */
  function RenderForest(f: seq<Element>): seq<Event>
    decreases f
  {
    if f == [] then []
    else
      assert f[0] in f;
      [Open(f[0].name)] + RenderForest(f[0].children) + [Close(f[0].name)] + RenderForest(f[1..])
  }

  lemma {:induction false} RenderAppend(a: seq<Element>, b: seq<Element>)
    ensures RenderForest(a + b) == RenderForest(a) + RenderForest(b)
    decreases |a|
  {
    if a == [] {
      assert a + b == b;
    } else {
      assert (a + b)[0] == a[0];
      assert (a + b)[1..] == a[1..] + b;
      RenderAppend(a[1..], b);
    }
  }

  lemma RunStep(e: Event, rest: seq<Event>, stack: seq<string>)
    ensures Run([e] + rest, stack) ==
      if e.Open? then Run(rest, stack + [e.name])
      else if stack != [] && stack[|stack| - 1] == e.name then Run(rest, stack[..|stack| - 1])
      else None
  {
    assert ([e] + rest)[0] == e && ([e] + rest)[1..] == rest;
  }

  /** A rendered forest leaves any stack as it found it. */
  lemma {:induction false} RunRender(f: seq<Element>, rest: seq<Event>, stack: seq<string>)
    ensures Run(RenderForest(f) + rest, stack) == Run(rest, stack)
    decreases f
  {
    if f == [] {
      assert RenderForest(f) + rest == rest;
    } else {
      var e := f[0];
      assert e in f;
      var inner := RenderForest(e.children);
      var after := RenderForest(f[1..]) + rest;
      var tail := [Close(e.name)] + after;
      assert RenderForest(f) + rest == [Open(e.name)] + (inner + tail);
      calc {
        Run(RenderForest(f) + rest, stack);
        { RunStep(Open(e.name), inner + tail, stack); }
        Run(inner + tail, stack + [e.name]);
        { RunRender(e.children, tail, stack + [e.name]); }
        Run(tail, stack + [e.name]);
        { RunStep(Close(e.name), after, stack + [e.name]);
          assert (stack + [e.name])[..|stack|] == stack; }
        Run(after, stack);
        { RunRender(f[1..], rest, stack); }
        Run(rest, stack);
      }
    }
  }

  /** An element still open while the events are read back into a forest:
      its name and the siblings that came before it. */
  datatype Frame = Frame(name: string, before: seq<Element>)

  function FrameNames(frames: seq<Frame>): (names: seq<string>)
    ensures |names| == |frames|
    decreases |frames|
  {
    if frames == [] then [] else FrameNames(frames[..|frames| - 1]) + [frames[|frames| - 1].name]
  }

  /** The events already read that the open frames stand for. */
  function RenderFrames(frames: seq<Frame>): seq<Event>
    decreases |frames|
  {
    if frames == [] then []
    else
      var last := frames[|frames| - 1];
      RenderFrames(frames[..|frames| - 1]) + RenderForest(last.before) + [Open(last.name)]
  }

  /** Reads events back into a forest; `top` holds the finished children of
      the innermost open element. */
  function Build(evs: seq<Event>, frames: seq<Frame>, top: seq<Element>): Option<seq<Element>>
    decreases |evs|
  {
    if evs == [] then (if frames == [] then Some(top) else None)
    else
      var n := evs[0].name;
      if evs[0].Open? then Build(evs[1..], frames + [Frame(n, top)], [])
      else if frames != [] && frames[|frames| - 1].name == n then
        var last := frames[|frames| - 1];
        Build(evs[1..], frames[..|frames| - 1], last.before + [Element(n, top)])
      else None
  }

  lemma BuildStep(e: Event, rest: seq<Event>, frames: seq<Frame>, top: seq<Element>)
    ensures Build([e] + rest, frames, top) ==
      if e.Open? then Build(rest, frames + [Frame(e.name, top)], [])
      else if frames != [] && frames[|frames| - 1].name == e.name then
        Build(rest, frames[..|frames| - 1], frames[|frames| - 1].before + [Element(e.name, top)])
      else None
  {
    assert ([e] + rest)[0] == e && ([e] + rest)[1..] == rest;
  }

  lemma RenderSingle(elem: Element)
    ensures RenderForest([elem]) == [Open(elem.name)] + RenderForest(elem.children) + [Close(elem.name)]
  {
    assert [elem][1..] == [];
  }

  /** Opening an element moves what was read into a new frame. */
  lemma OpenFrame(name: string, rest: seq<Event>, frames: seq<Frame>, top: seq<Element>)
    ensures RenderFrames(frames + [Frame(name, top)]) + RenderForest([]) + rest ==
      RenderFrames(frames) + RenderForest(top) + ([Open(name)] + rest)
  {
    var fr := frames + [Frame(name, top)];
    assert fr[..|fr| - 1] == frames;
    assert RenderForest([]) == [];
  }

  /** Closing an element turns the innermost frame and its children into
      one finished element. */
  lemma CloseFrame(rest: seq<Event>, frames: seq<Frame>, top: seq<Element>)
    requires frames != []
    ensures
      var last := frames[|frames| - 1];
      RenderFrames(frames[..|frames| - 1]) + RenderForest(last.before + [Element(last.name, top)]) + rest ==
      RenderFrames(frames) + RenderForest(top) + ([Close(last.name)] + rest)
  {
    var last := frames[|frames| - 1];
    var elem := Element(last.name, top);
    var init := RenderFrames(frames[..|frames| - 1]);
    var before := RenderForest(last.before);
    var inner := RenderForest(top);
    RenderAppend(last.before, [elem]);
    RenderSingle(elem);
    assert RenderFrames(frames) == init + before + [Open(last.name)];
    Regroup(init, before, [Open(last.name)], inner, [Close(last.name)], rest);
  }

  lemma Regroup<T>(a: seq<T>, b: seq<T>, c: seq<T>, d: seq<T>, e: seq<T>, f: seq<T>)
    ensures a + (b + (c + d + e)) + f == a + b + c + d + (e + f)
  {
  }

  /** Whatever `Build` returns renders to exactly the events it consumed. */
  lemma {:induction false} BuildSound(evs: seq<Event>, frames: seq<Frame>, top: seq<Element>)
    requires Build(evs, frames, top).Some?
    ensures RenderForest(Build(evs, frames, top).value) == RenderFrames(frames) + RenderForest(top) + evs
    decreases |evs|
  {
    if evs == [] {
      assert RenderFrames(frames) + RenderForest(top) + evs == RenderForest(top);
    } else {
      var e := evs[0];
      var rest := evs[1..];
      assert evs == [e] + rest;
      BuildStep(e, rest, frames, top);
      if e.Open? {
        BuildSound(rest, frames + [Frame(e.name, top)], []);
        OpenFrame(e.name, rest, frames, top);
      } else {
        var last := frames[|frames| - 1];
        BuildSound(rest, frames[..|frames| - 1], last.before + [Element(e.name, top)]);
        CloseFrame(rest, frames, top);
      }
    }
  }

  /** When the stack machine accepts, `Build` succeeds. */
  lemma {:induction false} BuildComplete(evs: seq<Event>, frames: seq<Frame>, top: seq<Element>)
    requires Run(evs, FrameNames(frames)) == Some([])
    ensures Build(evs, frames, top).Some?
    decreases |evs|
  {
    if evs != [] {
      var rest := evs[1..];
      var n := evs[0].name;
      if evs[0].Open? {
        var fr := frames + [Frame(n, top)];
        assert fr[..|fr| - 1] == frames;
        assert FrameNames(fr) == FrameNames(frames) + [n];
        BuildComplete(rest, fr, []);
      } else {
        var names := FrameNames(frames);
        assert names != [] && names[|names| - 1] == n;
        assert frames != [];
        var init := frames[..|frames| - 1];
        assert FrameNames(init) == names[..|names| - 1];
        BuildComplete(rest, init, frames[|frames| - 1].before + [Element(n, top)]);
      }
    }
  }

  /** The stack machine, started and finished empty, accepts exactly the
      renderings of element forests. */
  lemma AcceptsIffForest(evs: seq<Event>)
    ensures Run(evs, []) == Some([]) <==> exists f :: RenderForest(f) == evs
  {
    if Run(evs, []) == Some([]) {
      assert FrameNames([]) == [];
      BuildComplete(evs, [], []);
      BuildSound(evs, [], []);
      var f := Build(evs, [], []).value;
      assert RenderForest(f) == evs;
    }
    if exists f :: RenderForest(f) == evs {
      var f :| RenderForest(f) == evs;
      RunRender(f, [], []);
      assert RenderForest(f) + [] == evs;
    }
  }
}
