/** The sizes and limits that uIP is compiled with. */
module UipOpt {

  const UIP_BUFSIZE := 420
  const UIP_LLH_LEN := 14
  const UIP_IPH_LEN := 20
  const UIP_IPUDPH_LEN := 28
  const UIP_TCPIP_HLEN := 40
  const UIP_TCP_MSS := UIP_BUFSIZE - UIP_LLH_LEN - UIP_TCPIP_HLEN
  const UIP_RECEIVE_WINDOW := UIP_TCP_MSS
  const UIP_RTO := 3
  const UIP_MAXRTX := 8
  const UIP_MAXSYNRTX := 5
  const UIP_TIME_WAIT_TIMEOUT := 120
  const UIP_CONNS := 40
  const UIP_LISTENPORTS := 40
}
