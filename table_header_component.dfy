/**
  The face button above the board
  (src/app/components/table-header/table-header.component.ts).
 */
module TableHeaderComponent {
  import opened GameInterface
  import opened Settings
  import opened Boards
  import opened StateService

  /**
    `clickFace`: during a game, stop it as stopped, which shows every cell;
    otherwise start a new one. `draws` stands for the random picks of the
    new game's board.
   */
  method ClickFace(svc: Game, draws: seq<Position>)
    requires svc.Valid()
    requires svc.status != Playing ==> DrawsSuffice(draws, svc.size, svc.bombs)
    modifies svc, svc.table
    ensures svc.Valid()
    ensures svc.size == old(svc.size) && svc.bombs == old(svc.bombs)
    ensures old(svc.status) == Playing ==>
      svc.status == Stopped && !svc.ticking && svc.table == old(svc.table) &&
      svc.points == old(svc.points) && svc.maxPoints == Best(old(svc.maxPoints), svc.points) &&
      svc.flags == old(svc.flags) && svc.cleanedCells == old(svc.cleanedCells) && svc.time == old(svc.time) &&
      forall i, j :: 0 <= i < svc.size.rows && 0 <= j < svc.size.cols ==>
        svc.table[i, j] == old(svc.table[i, j]).(state := Visible)
    ensures old(svc.status) != Playing ==>
      svc.status == Playing && svc.ticking && svc.time == MaxTime && fresh(svc.table) &&
      svc.points == 0 && svc.flags == 0 && svc.cleanedCells == 0 && svc.Dealt() &&
      svc.maxPoints == old(svc.maxPoints) &&
      (forall i, j :: 0 <= i < svc.size.rows && 0 <= j < svc.size.cols ==> svc.table[i, j].state == Hidden) &&
      HoldingOf(BoardOf(svc.table), Bomb) <= set p | p in draws
  {
    if svc.status == Playing {
      svc.StopGame(Stopped);
    } else {
      svc.StartGame(draws);
    }
  }
}
