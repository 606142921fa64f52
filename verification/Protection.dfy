/** The rights a page or an area has. */
module Protection {

  datatype Rights = Rights(rd: bool, wr: bool, ex: bool) {
    function MaskRW(): Rights { Rights(rd, wr, false) }
    function MaskRX(): Rights { Rights(rd, false, ex) }
  }
}
