/**
 * The snake: an ordered body of cells (head first), a heading and an alive
 * flag. The pure functions here describe what the snake's operations do to
 * its body; the class Snake holds the state and its methods update it in
 * place as the source does.
 */
module SnakeState {
  import opened Grid

  /** Body of a freshly built snake of the given size: a horizontal run that
      starts at the grid centre and extends to the right. */
  function StartBody(size: int): seq<Cell> {
    seq(if size > 0 then size else 0, i => Cell(GridWidth / 2 + i, GridHeight / 2))
  }

  /** Linear search for c, as the collision loop does. */
  function Occurs(c: Cell, cells: seq<Cell>): (r: bool)
    ensures r <==> exists i :: 0 <= i < |cells| && cells[i] == c
  {
    if cells == [] then false
    else if cells[0] == c then true
    else
      assert forall i :: 1 <= i < |cells| ==> cells[i] == cells[1..][i - 1];
      Occurs(c, cells[1..])
  }

  /** The head shares its cell with some later segment. */
  predicate HeadCollides(body: seq<Cell>)
    requires |body| > 0
  {
    exists i :: 1 <= i < |body| && body[i] == body[0]
  }

  /** A body whose head is on the board and meets no other segment. */
  predicate Survives(body: seq<Cell>)
    requires |body| > 0
  {
    InGrid(body[0]) && !HeadCollides(body)
  }

  /** The body after one move in direction d: every segment takes its
      predecessor's old cell and the head steps once. */
  function Shifted(body: seq<Cell>, d: Direction): (r: seq<Cell>)
    requires |body| > 0
    ensures |r| == |body|
    ensures r[0] == Step(body[0], d)
    ensures forall i :: 1 <= i < |r| ==> r[i] == body[i - 1]
  {
    [Step(body[0], d)] + body[..|body| - 1]
  }

  /** Every cell of a moved body is its new head or was a cell before. */
  lemma ShiftedCells(body: seq<Cell>, d: Direction)
    requires |body| > 0
    ensures forall c :: c in Shifted(body, d) ==> c == Step(body[0], d) || c in body
  {
  }

  /** n copies of cell c. */
  function Copies(c: Cell, n: nat): (r: seq<Cell>)
    ensures |r| == n && forall i :: 0 <= i < n ==> r[i] == c
  {
    seq(n, _ => c)
  }

  /** The body after growing by n: n copies of the tail appended. */
  function Grown(body: seq<Cell>, n: nat): (r: seq<Cell>)
    requires |body| > 0
    ensures |r| == |body| + n
    ensures r[..|body|] == body
    ensures forall i :: |body| <= i < |r| ==> r[i] == body[|body| - 1]
  {
    body + Copies(body[|body| - 1], n)
  }

  /** Growing by one and then by n - 1 is growing by n. */
  lemma GrownStep(body: seq<Cell>, n: nat)
    requires |body| > 0 && n >= 1
    ensures Grown(body + [body[|body| - 1]], n - 1) == Grown(body, n)
  {
  }

  class Snake {
    var body: seq<Cell>
    var direction: Direction
    var alive: bool

    /** Builds a horizontal snake of `size` cells, heading left, alive. */
    constructor (size: int)
      ensures body == StartBody(size)
      ensures direction == Left && alive
    {
      var cells: seq<Cell> := [];
      var minX := GridWidth / 2;
      var minY := GridHeight / 2;
      var i := 0;
      while i < size
        invariant 0 <= i <= (if size > 0 then size else 0)
        invariant cells == StartBody(i)
        invariant minX == GridWidth / 2 + i
      {
        assert StartBody(i + 1) == StartBody(i) + [Cell(minX, minY)];
        cells := cells + [Cell(minX, minY)];
        minX := minX + 1;
        i := i + 1;
      }
      assert size <= 0 ==> StartBody(size) == StartBody(0);
      body := cells;
      direction := Left;
      alive := true;
    }

    /** Whether the head lies inside the window. */
    function InBounds(): (r: bool)
      reads this
      requires |body| > 0
      ensures r <==> InGrid(body[0])
    {
      InWindow(body[0])
    }

    /** Whether the head touches some other segment. */
    function SelfCollide(): (r: bool)
      reads this
      requires |body| > 0
      ensures r <==> HeadCollides(body)
    {
      assert forall i :: 1 <= i < |body| ==> body[i] == body[1..][i - 1];
      Occurs(body[0], body[1..])
    }

    /** Advances the snake one cell in its heading and kills it when the head
        leaves the board or lands on its own body. */
    method Move()
      requires |body| > 0
      modifies this
      ensures body == Shifted(old(body), direction)
      ensures direction == old(direction)
      ensures alive == (old(alive) && Survives(body))
      ensures alive ==> old(alive)
    {
      var oldBody := body;
      var i := 0;
      while i < |body| - 1
        invariant 0 <= i <= |oldBody| - 1
        invariant |body| == |oldBody|
        invariant body[0] == oldBody[0]
        invariant forall k :: 1 <= k <= i ==> body[k] == oldBody[k - 1]
        invariant forall k :: i < k < |body| ==> body[k] == oldBody[k]
        invariant direction == old(direction) && alive == old(alive)
      {
        body := body[i + 1 := oldBody[i]];
        i := i + 1;
      }
      body := body[0 := Step(body[0], direction)];
      assert body == Shifted(oldBody, direction);
      if !InBounds() {
        Die();
      }
      if SelfCollide() {
        Die();
      }
    }

    /** Appends n copies of the tail, one at a time. */
    method Grow(n: int)
      requires n >= 1 && |body| > 0
      modifies this
      decreases n
      ensures body == Grown(old(body), n)
      ensures direction == old(direction) && alive == old(alive)
    {
      GrownStep(body, n);
      body := body + [body[|body| - 1]];
      if n == 1 {
        return;
      }
      Grow(n - 1);
    }

    method Die()
      modifies this`alive
      ensures !alive
    {
      alive := false;
    }
  }

  /** A new snake of any positive size has that many cells, its head at
      the centre, and each segment one step right of the one before. */
  lemma StartBodyShape(size: int)
    requires size >= 1
    ensures |StartBody(size)| == size
    ensures StartBody(size)[0] == Cell(20, 20)
    ensures forall i :: 0 <= i < size - 1 ==> StartBody(size)[i + 1] == Step(StartBody(size)[i], Right)
  {
  }

  /** A new snake of at most 20 cells lies on the board and does not
      collide with itself. */
  lemma StartBodyFits(size: int)
    requires 1 <= size <= GridWidth / 2
    ensures forall i :: 0 <= i < |StartBody(size)| ==> InGrid(StartBody(size)[i])
    ensures Survives(StartBody(size))
  {
  }

  /** After a move in direction d, turning round puts the head on its old
      neck cell; a snake of three or more cells then dies. A snake of exactly
      two cells swaps head and tail and survives the collision test. */
  lemma ReversalLandsOnNeck(body: seq<Cell>, d: Direction)
    requires |body| >= 2
    ensures Shifted(Shifted(body, d), Opposite(d))[0] == body[0]
    ensures Shifted(Shifted(body, d), Opposite(d))[0] == Shifted(body, d)[1]
    ensures |body| >= 3 ==> !Survives(Shifted(Shifted(body, d), Opposite(d)))
    ensures |body| == 2 ==> !HeadCollides(Shifted(Shifted(body, d), Opposite(d)))
    ensures |body| == 2 ==>
      (Survives(Shifted(Shifted(body, d), Opposite(d))) <==> InGrid(body[0]))
  {
    var once := Shifted(body, d);
    var twice := Shifted(once, Opposite(d));
    StepOpposite(body[0], d);
    StepOpposite(once[0], Opposite(d));
    if |body| >= 3 {
      assert twice[2] == once[1] == body[0] == twice[0];
    } else {
      assert twice[1] == once[0] == Step(body[0], d);
    }
  }

  /** A new five-cell snake heading left whose heading is flipped to right
      before its first move dies on that move. */
  lemma StartReversalKills()
    ensures !Survives(Shifted(StartBody(5), Right))
  {
    var b := Shifted(StartBody(5), Right);
    assert b[0] == Cell(21, 20) == b[2];
  }

  /** A new five-cell snake moved left three times keeps its length, has its
      head three columns further left and stays alive throughout. */
  lemma StartThreeMovesLeft()
    ensures Survives(Shifted(StartBody(5), Left))
    ensures Survives(Shifted(Shifted(StartBody(5), Left), Left))
    ensures Survives(Shifted(Shifted(Shifted(StartBody(5), Left), Left), Left))
    ensures Shifted(Shifted(Shifted(StartBody(5), Left), Left), Left)
         == [Cell(17, 20), Cell(18, 20), Cell(19, 20), Cell(20, 20), Cell(21, 20)]
  {
  }
}
