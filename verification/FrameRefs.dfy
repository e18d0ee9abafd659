/** Reference-counted frames (utils/video_source_common.c) and the shared frame slot of a Motion-JPEG
    channel (motion-jpeg/motion-jpeg-server.c). Channel calls hold the channel mutex, so each is one step. */
module FrameRefs {
  import opened Text

  /** What a frame carries; `data` is None when its data pointer is null. */
  datatype Image = Image(number: int, ticks: int, data: Option<string>)

  class VideoFrame {
    var refs: int
    var freed: bool
    const image: Image

    constructor (image: Image)
      ensures refs == 1 && !freed && this.image == image
    {
      refs, freed := 1, false;
      this.image := image;
    }

    method AddRef() returns (frame: VideoFrame?)
      modifies this`refs
      ensures old(refs) <= 0 ==> frame == null && refs == old(refs)
      ensures old(refs) > 0 ==> frame == this && refs == old(refs) + 1
    {
      if refs <= 0 {
        return null;
      }
      refs := refs + 1;
      frame := this;
    }

    method Unref()
      modifies this
      ensures refs == if old(refs) <= 0 then old(refs) else old(refs) - 1
      ensures freed == (old(freed) || old(refs) == 1)
    {
      if refs <= 0 {
        return;
      }
      refs := refs - 1;
      if refs == 0 {
        freed := true;
      }
    }
  }

  function One(b: bool): nat { if b then 1 else 0 }

  class Channel {
    var frame: VideoFrame?   // priv->frame
    var frameNumber: int
    ghost var all: set<VideoFrame>        // every frame ever published through this channel's source
    ghost var published: set<VideoFrame>  // frames whose creator still holds its reference
    ghost var gets: multiset<VideoFrame>  // frames handed out by get and not yet returned

    /** Who holds `f`: its publisher, the slot, and every client that got it. */
    ghost function Holders(f: VideoFrame): nat
      reads this
    {
      One(f in published) + One(frame == f) + gets[f]
    }

    /** Conservation: every reference count is the number of holders, and dead means unheld. */
    ghost predicate Valid()
      reads this, all
    {
      && published <= all && (frame != null ==> frame in all && frame.image.data.Some?)
      && (forall f :: f in gets ==> f in all && f.image.data.Some?)
      && (forall f :: f in all ==> f.refs == Holders(f) && (f.freed <==> Holders(f) == 0))
    }

    /** Freed frames are not resurrected. */
    twostate predicate DeadStayDead()
      reads this, all
    {
      old(all) <= all && forall f :: f in old(all) && old(f.freed) ==> f.freed
    }

    constructor ()
      ensures Valid() && all == {} && published == {} && frame == null && gets == multiset{}
    {
      frame, frameNumber, all, published, gets := null, 0, {}, {}, multiset{};
    }

    /** video_frame_new by the publisher. */
    method NewFrame(image: Image) returns (f: VideoFrame)
      requires Valid()
      modifies this`all, this`published
      ensures Valid() && fresh(f) && f.image == image
      ensures all == old(all) + {f} && published == old(published) + {f}
    {
      f := new VideoFrame(image);
      all, published := all + {f}, published + {f};
    }

    /** channel_update_frame, called by whoever holds the publisher's reference. */
    method UpdateFrame(f: VideoFrame?) returns (n: int)
      requires Valid() && (f != null ==> f in published)
      modifies this`frame, this`frameNumber, all
      ensures Valid() && DeadStayDead()
      ensures f == null || f.image.data.None? ==> n == -1 && frame == old(frame) && frameNumber == old(frameNumber)
      ensures f != null && f.image.data.Some? ==> n == f.image.number == frameNumber && frame == f
      ensures old(frame) != null && f != null && f.image.data.Some? && old(frame) != f ==>
        (old(frame).freed <==> old(frame) !in published && old(frame) !in gets)
      ensures forall g :: g in all && g != f && g != old(frame) ==> g.refs == old(g.refs) && g.freed == old(g.freed)
    {
      if f == null || f.image.data.None? {
        return -1;
      }
      var oldFrame := frame;
      if f != oldFrame {
        var _ := f.AddRef();
        frame := f;
        if oldFrame != null {
          oldFrame.Unref();
        }
      }
      n := f.image.number;
      frameNumber := n;
      assert forall g :: g in all && g != f && g != oldFrame ==> Holders(g) == old(Holders(g));
    }

    /** channel_get_frame. */
    method GetFrame() returns (f: VideoFrame?)
      requires Valid()
      modifies this`gets, all
      ensures Valid() && DeadStayDead() && f == frame
      ensures f == null ==> gets == old(gets)
      ensures f != null ==> gets == old(gets) + multiset{f} && !f.freed
      ensures forall g :: g in all && g != f ==> g.refs == old(g.refs) && g.freed == old(g.freed)
    {
      f := frame;
      if f != null {
        var _ := f.AddRef();
        gets := gets + multiset{f};
      }
    }

    /** channel_unref_frame by a client that got `f`. */
    method UnrefFrame(f: VideoFrame?)
      requires Valid() && (f != null ==> f in gets)
      modifies this`gets, all
      ensures Valid() && DeadStayDead()
      ensures f != null ==> gets == old(gets) - multiset{f}
      ensures f != null ==> (f.freed <==> f !in gets && f !in published && frame != f)
      ensures f == null ==> gets == old(gets)
      ensures forall g :: g in all && g != f ==> g.refs == old(g.refs) && g.freed == old(g.freed)
    {
      if f != null {
        f.Unref();
        gets := gets - multiset{f};
        assert forall g :: g in all && g != f ==> Holders(g) == old(Holders(g));
      }
    }

    /** The publisher drops the reference video_frame_new gave it. */
    method Release(f: VideoFrame)
      requires Valid() && f in published
      modifies this`published, all
      ensures Valid() && DeadStayDead() && published == old(published) - {f}
      ensures f.freed <==> f !in gets && frame != f
      ensures forall g :: g in all && g != f ==> g.refs == old(g.refs) && g.freed == old(g.freed)
    {
      f.Unref();
      published := published - {f};
    }

    /** motion_jpeg_channel_private_free. */
    method Close()
      requires Valid()
      modifies this`frame, all
      ensures Valid() && DeadStayDead() && frame == null
      ensures old(frame) != null ==> (old(frame).freed <==> old(frame) !in published && old(frame) !in gets)
    {
      var last := frame;
      frame := null;
      if last != null {
        last.Unref();
      }
    }

    /** Once the publisher, the slot and every client have let go, no frame is left alive. */
    lemma NothingLeaks()
      requires Valid() && published == {} && frame == null && gets == multiset{}
      ensures forall f :: f in all ==> f.freed
    {
    }

    /** While anyone still holds a frame it is alive. */
    lemma HeldIsAlive(f: VideoFrame)
      requires Valid() && (f in published || frame == f || f in gets)
      ensures !f.freed && f.refs > 0
    {
      assert f in all;
    }
  }
}
