/** The side of the road axis a sample falls on, from its signed transverse
    offset to the axis (already rounded to centimetres by the caller). */
module Side {

  datatype Lado = Izquierdo | Derecho

  /** A strictly positive offset lies on the left ("Izquierdo"); zero and
      negative offsets on the right ("Derecho"). */
  function SideOf(offset: real): (lado: Lado)
    ensures lado == Derecho <==> offset <= 0.0
  {
    if offset > 0.0 then Izquierdo else Derecho
  }

  /** A sample exactly on the axis is classified "Derecho". */
  lemma AxisIsDerecho()
    ensures SideOf(0.0) == Derecho
  {
  }

  /** Left and right split the line at the axis: an offset is on the left
      exactly when it is positive, and mirroring a non-zero offset across
      the axis changes its side. */
  lemma SidesSplitAtAxis(offset: real)
    ensures SideOf(offset) == Izquierdo <==> offset > 0.0
    ensures offset != 0.0 ==> SideOf(-offset) != SideOf(offset)
  {
  }

  /** Moving an offset further to the left never moves it to the right. */
  lemma SideIsMonotone(a: real, b: real)
    requires a <= b
    ensures SideOf(a) == Izquierdo ==> SideOf(b) == Izquierdo
    ensures SideOf(b) == Derecho ==> SideOf(a) == Derecho
  {
  }
}
