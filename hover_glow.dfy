/** The glow that follows the pointer over an application tile (`AppBox` in pages/index.tsx).
    Mounting attaches a pointer-move and a pointer-leave listener to the tile (when the tile
    is found); the listeners write three CSS custom properties; the cleanup removes both. */
module HoverGlow {

  /** The two pointer events a tile listens to. */
  datatype EventKind = Move | Leave

  /** A CSS custom property of the tile: never written, or written with a number. */
  datatype Prop = Unset | Set(value: real)

  /** '--opacity' while the pointer is over the tile. */
  const Visible: real := 0.3
  /** '--opacity' once the pointer has left the tile. */
  const Hidden: real := 0.0

  class AppBox {
    /** Whether the tile's element was found by its id. */
    const found: bool
    /** '--opacity', '--x' and '--y' of the tile's style. */
    var opacity: Prop
    var x: Prop
    var y: Prop
    /** The pointer listeners attached to the tile. */
    var listeners: set<EventKind>

    ghost predicate Valid()
      reads this
    {
      !found ==> listeners == {}
    }

    /** A rendered tile before its effect has run. */
    constructor (found: bool)
      ensures Valid()
      ensures this.found == found && listeners == {}
      ensures opacity == Unset && x == Unset && y == Unset
    {
      this.found := found;
      opacity, x, y := Unset, Unset, Unset;
      listeners := {};
    }

    /** The effect: when the tile exists, attach both listeners; otherwise register nothing. */
    method Mount()
      requires Valid()
      modifies this
      ensures Valid()
      ensures listeners == if found then old(listeners) + {Move, Leave} else old(listeners)
      ensures opacity == old(opacity) && x == old(x) && y == old(y)
    {
      if found {
        listeners := listeners + {Move, Leave};
      }
    }

    /** The cleanup the effect returns: removes exactly the two listeners it added (a no-op when
        the tile was not found). */
    method Cleanup()
      requires Valid()
      modifies this
      ensures Valid()
      ensures listeners == if found then old(listeners) - {Move, Leave} else old(listeners)
      ensures opacity == old(opacity) && x == old(x) && y == old(y)
    {
      if found {
        listeners := listeners - {Move, Leave};
      }
    }

    /** A pointer-move at (clientX, clientY) over a tile whose bounding box starts at
        (left, top): the glow becomes visible at the pointer's offset inside the tile. */
    method OnPointerMove(clientX: real, clientY: real, left: real, top: real)
      requires Valid()
      modifies this
      ensures Valid() && listeners == old(listeners)
      ensures Move in listeners ==>
        opacity == Set(Visible) && x == Set(clientX - left) && y == Set(clientY - top)
      ensures Move !in listeners ==> opacity == old(opacity) && x == old(x) && y == old(y)
    {
      if Move in listeners {
        opacity := Set(Visible);
        x := Set(clientX - left);
        y := Set(clientY - top);
      }
    }

    /** A pointer-leave: the glow is hidden and its last position is kept. */
    method OnPointerLeave()
      requires Valid()
      modifies this
      ensures Valid() && listeners == old(listeners)
      ensures opacity == if Leave in listeners then Set(Hidden) else old(opacity)
      ensures x == old(x) && y == old(y)
    {
      if Leave in listeners {
        opacity := Set(Hidden);
      }
    }
  }

  /** A move to (150, 200) over a tile at (50, 50) puts the glow at (100, 150); leaving hides it
      there; the cleanup leaves no listener behind; a missing tile never reacts. */
  method GlowScenario()
  {
    var tile := new AppBox(true);
    tile.Mount();
    tile.OnPointerMove(150.0, 200.0, 50.0, 50.0);
    assert tile.opacity == Set(Visible) && tile.x == Set(100.0) && tile.y == Set(150.0);
    tile.OnPointerLeave();
    assert tile.opacity == Set(Hidden) && tile.x == Set(100.0) && tile.y == Set(150.0);
    tile.Cleanup();
    assert tile.listeners == {};
    tile.OnPointerMove(1.0, 2.0, 0.0, 0.0);
    assert tile.opacity == Set(Hidden);

    var missing := new AppBox(false);
    missing.Mount();
    assert missing.listeners == {};
    missing.OnPointerMove(150.0, 200.0, 50.0, 50.0);
    assert missing.opacity == Unset;
  }
}
