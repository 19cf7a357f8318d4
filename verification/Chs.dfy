/**
 Cylinder/head/sector addresses as interrupt 13h packs them, and the routine
 that advances one by a number of sectors.
 */
module Chs {

  import opened Machine

  datatype Geometry = Geometry(spt: nat, heads: nat) {
    /** Sector numbers have six bits and start at 1; heads are compared as bytes. */
    predicate Valid() {
      1 <= spt <= 63 && 1 <= heads <= 255
    }

    function Tracks(): nat {
      1024 * heads
    }

    function Total(): nat {
      1024 * heads * spt
    }
  }

  /** Registers cl, ch and dh: two cylinder bits sit above the sector in cl. */
  datatype Packed = Packed(cl: u8, ch: u8, dh: u8) {
    function Sector(): nat {
      cl % 64
    }

    function Cylinder(): nat {
      ch + 256 * (cl / 64)
    }

    predicate Valid(g: Geometry) {
      1 <= Sector() <= g.spt && dh < g.heads
    }

    /** Index of the track, counting heads within cylinders. */
    function Track(g: Geometry): nat {
      Cylinder() * g.heads + dh
    }

    /** The linear sector number this address denotes. */
    function Linear(g: Geometry): int {
      Track(g) * g.spt + Sector() - 1
    }
  }

  /** The packed address of a linear sector number. */
  function Encode(g: Geometry, linear: nat): (p: Packed)
    requires g.Valid() && linear < g.Total()
  {
    CylinderBound(g, linear);
    var cylinder := linear / g.spt / g.heads;
    Packed(linear % g.spt + 1 + 64 * (cylinder / 256), cylinder % 256, linear / g.spt % g.heads)
  }

  lemma CylinderBound(g: Geometry, linear: nat)
    requires g.Valid() && linear < g.Total()
    ensures 0 <= linear / g.spt / g.heads < 1024
    ensures 0 <= linear % g.spt < g.spt
    ensures 0 <= linear / g.spt % g.heads < g.heads
  {
    DivBound(linear, g.spt, g.Tracks());
    DivBound(linear / g.spt, g.heads, 1024);
  }

  lemma LinearBound(g: Geometry, p: Packed)
    requires g.Valid() && p.Valid(g)
    ensures 0 <= p.Track(g) < g.Tracks() && 0 <= p.Linear(g) < g.Total()
  {
    MulMono(0, p.Cylinder(), g.heads);
    MulMono(p.Cylinder(), 1023, g.heads);
    MulMono(0, p.Track(g), g.spt);
    MulMono(p.Track(g), g.Tracks() - 1, g.spt);
    MulSum(g.Tracks() - 1, 1, g.spt);
  }

  /** Valid addresses denote sectors of the disk, and `Encode` inverts `Linear`. */
  lemma EncodeLinear(g: Geometry, p: Packed)
    requires g.Valid() && p.Valid(g)
    ensures 0 <= p.Linear(g) < g.Total()
    ensures Encode(g, p.Linear(g)) == p
  {
    hide Packed.Track, Packed.Linear, Geometry.Total, Packed.Sector, Packed.Cylinder;
    LinearBound(g, p);
    LinearParts(g, p);
    PackedParts(p);
  }

  lemma LinearParts(g: Geometry, p: Packed)
    requires g.Valid() && p.Valid(g)
    ensures p.Linear(g) / g.spt == p.Track(g) && p.Linear(g) % g.spt == p.Sector() - 1
    ensures p.Track(g) / g.heads == p.Cylinder() && p.Track(g) % g.heads == p.dh
  {
    DivModUnique(p.Linear(g), g.spt, p.Track(g), p.Sector() - 1);
    DivModUnique(p.Track(g), g.heads, p.Cylinder(), p.dh);
  }

  lemma PackedParts(p: Packed)
    ensures p.Cylinder() < 1024 && p.Cylinder() % 1024 == p.Cylinder()
    ensures p.Sector() + 64 * (p.Cylinder() / 256) == p.cl && p.Cylinder() % 256 == p.ch
  {
  }

  lemma LinearEncode(g: Geometry, linear: nat)
    requires g.Valid() && linear < g.Total()
    ensures Encode(g, linear).Valid(g) && Encode(g, linear).Linear(g) == linear
  {
    CylinderBound(g, linear);
    var track, sector, cylinder := linear / g.spt, linear % g.spt + 1, linear / g.spt / g.heads;
    FieldsApart(sector, cylinder);
    Divided(linear, g.spt);
    Divided(track, g.heads);
  }

  lemma FieldsApart(sector: nat, cylinder: nat)
    requires sector < 64 && cylinder < 1024
    ensures (sector + 64 * (cylinder / 256)) % 64 == sector
    ensures cylinder % 256 + 256 * ((sector + 64 * (cylinder / 256)) / 64) == cylinder
  {
    TwoFields(cylinder / 256, sector);
  }

  lemma Divided(a: nat, b: nat)
    requires b > 0
    ensures a == a / b * b + a % b
  {
  }

  /**
   Cylinder, head and sector in their registers: eight bits of the cylinder in
   ch, the other two above the six bits of the sector in cl.
   */
  lemma LinearOfFields(g: Geometry, cylinder: nat, head: nat, sector: nat)
    requires g.Valid() && cylinder < 1024 && head < g.heads && 1 <= sector <= g.spt
    ensures var p := Packed(sector + 64 * (cylinder / 256), cylinder % 256, head);
            p.Valid(g) && p.Linear(g) == (cylinder * g.heads + head) * g.spt + sector - 1
  {
    FieldsApart(sector, cylinder);
  }

  /** Two valid addresses of one sector are the same registers. */
  lemma LinearInjective(g: Geometry, p: Packed, q: Packed)
    requires g.Valid() && p.Valid(g) && q.Valid(g)
    requires p.Linear(g) == q.Linear(g)
    ensures p == q
  {
    hide Packed.Linear, Encode;
    EncodeLinear(g, p);
    EncodeLinear(g, q);
  }

  /** A linear sector number, wrapped at the end of the disk. */
  function Wrap(g: Geometry, x: nat): nat
    requires g.Valid()
  {
    x % g.Total()
  }

  lemma WrapFacts(g: Geometry, x: nat)
    requires g.Valid()
    ensures Wrap(g, x) < g.Total()
    ensures x < g.Total() ==> Wrap(g, x) == x
    ensures Wrap(g, x + 1) == if Wrap(g, x) + 1 == g.Total() then 0 else Wrap(g, x) + 1
  {
    var total, q := g.Total(), x / g.Total();
    assert x == q * total + Wrap(g, x);
    MulSum(q, 1, total);
    if Wrap(g, x) + 1 == total {
      DivModUnique(x + 1, total, q + 1, 0);
    } else {
      DivModUnique(x + 1, total, q, Wrap(g, x) + 1);
    }
    if x < total {
      DivModUnique(x, total, 0, x);
    }
  }

  lemma {:induction false} WrapSum(g: Geometry, x: nat, n: nat)
    requires g.Valid()
    ensures Wrap(g, Wrap(g, x) + n) == Wrap(g, x + n)
  {
    hide Wrap, Geometry.Total;
    WrapFacts(g, x);
    WrapFacts(g, Wrap(g, x));
    if n > 0 {
      WrapSum(g, x, n - 1);
      WrapFacts(g, x + n - 1);
      WrapFacts(g, Wrap(g, x) + n - 1);
    }
  }

  /** The address `n` sectors further, wrapping at the end of the disk. */
  function Advance(g: Geometry, p: Packed, n: nat): Packed
    requires g.Valid() && p.Valid(g)
  {
    LinearBound(g, p);
    WrapFacts(g, p.Linear(g) + n);
    Encode(g, Wrap(g, p.Linear(g) + n))
  }

  lemma AdvanceLinear(g: Geometry, p: Packed, n: nat)
    requires g.Valid() && p.Valid(g)
    ensures p.Linear(g) >= 0 && Advance(g, p, n).Valid(g)
    ensures Advance(g, p, n).Linear(g) == Wrap(g, p.Linear(g) + n)
    ensures p.Linear(g) + n < g.Total() ==> Advance(g, p, n).Linear(g) == p.Linear(g) + n
  {
    hide Wrap, Encode, Packed.Linear, Geometry.Total;
    LinearBound(g, p);
    WrapFacts(g, p.Linear(g) + n);
    LinearEncode(g, Wrap(g, p.Linear(g) + n));
  }

  /** Advancing is an action of addition: `m` and then `n` is `m + n`. */
  lemma AdvanceAdditive(g: Geometry, p: Packed, m: nat, n: nat)
    requires g.Valid() && p.Valid(g)
    ensures Advance(g, p, m).Valid(g)
    ensures Advance(g, Advance(g, p, m), n) == Advance(g, p, m + n)
    ensures Advance(g, p, 0) == p
  {
    hide Wrap, Encode, Packed.Linear, Geometry.Total;
    AdvanceLinear(g, p, m);
    WrapSum(g, p.Linear(g) + m, n);
    EncodeLinear(g, p);
    WrapFacts(g, p.Linear(g));
  }

  /** Linear number of a sector in a register triple, before packing. */
  function Position(g: Geometry, c: nat, h: nat, s: nat): int {
    (c * g.heads + h) * g.spt + s - 1
  }

  lemma StartPosition(g: Geometry, p: Packed)
    requires g.Valid() && p.Valid(g)
    ensures p.Linear(g) == Position(g, p.Cylinder(), p.dh, p.Sector())
  {
  }

  /** The last sector of a track is followed by the first of the next track. */
  lemma CarryHead(g: Geometry, c: nat, h: nat)
    ensures Position(g, c, h + 1, 1) == Position(g, c, h, g.spt) + 1
  {
    MulSum(c * g.heads + h, 1, g.spt);
  }

  /** The track behind the last head is head 0 of the next cylinder. */
  lemma CarryCylinder(g: Geometry, c: nat)
    ensures Position(g, c + 1, 0, 1) == Position(g, c, g.heads, 1)
    ensures Position(g, 0, 0, 1) == 0 && Position(g, 1024, 0, 1) == g.Total()
  {
    MulSum(c, 1, g.heads);
  }

  /** In range, positions are below the size of the disk. */
  lemma PositionBound(g: Geometry, c: nat, h: nat, s: nat)
    requires g.Valid() && c < 1024 && h < g.heads && 1 <= s <= g.spt
    ensures 0 <= Position(g, c, h, s) < g.Total()
    ensures s < g.spt || h + 1 < g.heads || c < 1023 ==> Position(g, c, h, s) + 1 < g.Total()
  {
    var t := c * g.heads + h;
    MulMono(0, c, g.heads);
    MulMono(c, 1023, g.heads);
    if c < 1023 {
      MulMono(c, 1022, g.heads);
    }
    MulMono(0, t, g.spt);
    MulMono(t, g.Tracks() - 1, g.spt);
    MulSum(g.Tracks() - 1, 1, g.spt);
    if t < g.Tracks() - 1 {
      MulMono(t, g.Tracks() - 2, g.spt);
      MulSum(g.Tracks() - 2, 1, g.spt);
    }
  }

  /**
   The routine: peel the cylinder off ch and cl, count `ax` down one sector at
   a time with carries into head and cylinder, and pack again.
   */
  method AddChs(g: Geometry, p: Packed, n: u16) returns (q: Packed)
    requires g.Valid() && p.Valid(g)
    ensures q == Advance(g, p, n)
  {
    hide Position, Packed.Linear, Geometry.Total, Wrap, Encode;
    LinearBound(g, p);
    StartPosition(g, p);
    PackedParts(p);
    WrapFacts(g, p.Linear(g));
    var bx: u16 := p.ch + 256 * (p.cl / 64);
    var cl: u8 := p.cl % 64;
    var dh: u8 := p.dh;
    var ax: u16 := n;
    ghost var c: nat := bx % 1024;
    while ax != 0
      invariant 0 <= ax <= n
      invariant c == bx % 1024 && 1 <= cl <= g.spt && dh < g.heads
      invariant Position(g, c, dh, cl) == Wrap(g, p.Linear(g) + (n - ax))
    {
      WrapFacts(g, p.Linear(g) + (n - ax));
      PositionBound(g, c, dh, cl);
      NextInTrack(g, c, dh, cl);
      CarryHead(g, c, dh);
      CarryCylinder(g, c);
      ax := ax - 1;
      cl := cl + 1;
      if cl > g.spt {
        cl := 1;
        dh := dh + 1;
        if dh >= g.heads {
          dh := 0;
          NextCylinder(bx);
          bx := (bx + 1) % TWO16;
          c := if c == 1023 then 0 else c + 1;
        }
      }
    }
    PackedPosition(g, bx, cl, dh);
    q := Packed(bx / 256 * 64 % 256 + cl, bx % 256, dh);
  }

  lemma NextInTrack(g: Geometry, c: nat, h: nat, s: nat)
    ensures Position(g, c, h, s + 1) == Position(g, c, h, s) + 1
  {
  }

  lemma NextCylinder(bx: u16)
    ensures (bx + 1) % TWO16 % 1024 == if bx % 1024 == 1023 then 0 else bx % 1024 + 1
  {
  }

  lemma PackedFields(bx: u16, cl: u8)
    requires cl < 64
    ensures bx / 256 * 64 % 256 + cl < 256
    ensures (bx / 256 * 64 % 256 + cl) % 64 == cl
    ensures bx % 256 + 256 * ((bx / 256 * 64 % 256 + cl) / 64) == bx % 1024
  {
    LowTen(bx);
    HighTwo(bx / 256);
    TwoFields(bx / 256 % 4, cl);
  }

  lemma LowTen(bx: u16)
    ensures bx % 1024 == bx % 256 + 256 * (bx / 256 % 4)
  {
  }

  lemma HighTwo(high: nat)
    ensures high * 64 % 256 == high % 4 * 64
  {
    DivModUnique(high * 64, 256, high / 4, high % 4 * 64);
  }

  lemma TwoFields(high: nat, low: nat)
    requires high < 4 && low < 64
    ensures high * 64 + low < 256 && (high * 64 + low) % 64 == low && (high * 64 + low) / 64 == high
  {
    DivModUnique(high * 64 + low, 64, high, low);
  }

  /** Packing keeps the low ten bits of the cylinder and the whole sector. */
  lemma PackedPosition(g: Geometry, bx: u16, cl: u8, dh: u8)
    requires g.Valid() && 1 <= cl <= g.spt && dh < g.heads
    ensures bx / 256 * 64 % 256 + cl < 256
    ensures var q := Packed(bx / 256 * 64 % 256 + cl, bx % 256, dh);
            q.Valid(g) && q.Linear(g) == Position(g, bx % 1024, dh, cl)
            && 0 <= q.Linear(g) < g.Total() && Encode(g, q.Linear(g)) == q
  {
    PackedFields(bx, cl);
    EncodeLinear(g, Packed(bx / 256 * 64 % 256 + cl, bx % 256, dh));
  }
}
