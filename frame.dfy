/** GraphicsFrame.kt: the view that holds back a boot request until its
    drawing surface exists.

    `surfaceCreated` does not act at once: it posts a block to the main
    looper, and the block runs later. `posted` counts the blocks posted and
    not yet run, and `RunPostedBlock` is the looper running one of them. The
    paths handed to `RPCS3.boot` are recorded in `booted`; `requested` is the
    ghost record of the paths given to `boot`. */
module Frame {
  import opened Common

  class GraphicsFrame {
    var lateInit: string
    var hasSurface: bool
    var posted: nat
    var booted: seq<string>
    ghost var requested: seq<string>

    /** With a surface nothing is pending, and the paths booted are the
        paths requested, in order, each at most once; a pending path comes
        after them. */
    ghost predicate Valid()
      reads this
    {
      && (hasSurface ==> lateInit == "")
      && IsSubsequence(booted, requested)
      && (lateInit != "" ==> IsSubsequence(booted + [lateInit], requested))
    }

    constructor ()
      ensures Valid()
      ensures lateInit == "" && !hasSurface && posted == 0
      ensures booted == [] && requested == []
    {
      lateInit := "";
      hasSurface := false;
      posted := 0;
      booted := [];
      requested := [];
    }

    /** boot(path): without a surface the path is kept for later, replacing
        any path kept before (only the last request survives) and booting
        nothing; with a surface it is booted at once and the pending path
        is left alone. */
    method Boot(path: string)
      requires Valid()
      modifies this
      ensures Valid()
      ensures requested == old(requested) + [path]
      ensures hasSurface == old(hasSurface) && posted == old(posted)
      ensures !old(hasSurface) ==> lateInit == path && booted == old(booted)
      ensures old(hasSurface) ==> lateInit == old(lateInit) && booted == old(booted) + [path]
    {
      requested := requested + [path];
      SubsequenceExtend(booted, old(requested), path);
      if !hasSurface {
        lateInit := path;
        SubsequenceSnoc(booted, old(requested), path);
      } else {
        booted := booted + [path];
        SubsequenceSnoc(old(booted), old(requested), path);
      }
    }

    /** surfaceCreated: posts its block to the main looper. */
    method SurfaceCreated()
      requires Valid()
      modifies this
      ensures Valid()
      ensures posted == old(posted) + 1
      ensures lateInit == old(lateInit) && hasSurface == old(hasSurface)
      ensures booted == old(booted) && requested == old(requested)
    {
      posted := posted + 1;
    }

    /** The block posted by surfaceCreated: the surface is marked present, and
        a pending path is booted exactly once and cleared; with no pending
        path nothing is booted. */
    method RunPostedBlock()
      requires Valid()
      requires posted > 0
      modifies this
      ensures Valid()
      ensures hasSurface && lateInit == "" && posted == old(posted) - 1
      ensures requested == old(requested)
      ensures old(lateInit) != "" ==> booted == old(booted) + [old(lateInit)]
      ensures old(lateInit) == "" ==> booted == old(booted)
    {
      posted := posted - 1;
      hasSurface := true;
      var path := lateInit;
      if path != "" {
        lateInit := "";
        booted := booted + [path];
      }
    }

    /** surfaceDestroyed: only the surface flag changes. */
    method SurfaceDestroyed()
      requires Valid()
      modifies this
      ensures Valid()
      ensures !hasSurface
      ensures lateInit == old(lateInit) && posted == old(posted)
      ensures booted == old(booted) && requested == old(requested)
    {
      hasSurface := false;
    }
  }
}
